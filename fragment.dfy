/**
  The path-fragment formatter of `generate_paths`: one `<path>` element per
  colour, `fill` first, then `opacity` unless the colour is fully opaque, then
  the outline data `d`, closed by `"/>` and a newline. `ParsePath` reads such
  a fragment back and is the reference its format is proved against.
 */
module Fragment {
  import opened Text
  import opened Raster

  /** The 256-entry `OPACITY` table, indexed by the raw alpha value. */
  type OpacityTable = t: seq<string> | |t| == 256 witness seq(256, _ => "")

  /** `fill="rgb(R,G,B)"` for the colour's red, green and blue values. */
  function FillAttr(c: Color): string
  {
    "fill=\"rgb(" + (Decimal(c.r) + ("," + (Decimal(c.g) + ("," + (Decimal(c.b) + ")\"")))))
  }

  /** The optional ` opacity="OPACITY[alpha]"` attribute: empty when alpha is 255. */
  function OpacityAttr(c: Color, opacity: OpacityTable): string
  {
    if c.a == 255 then "" else " opacity=\"" + opacity[c.a] + "\""
  }

  /**
    The third and fifth phases for one colour: `<path `, the `fill` attribute,
    the `opacity` attribute unless alpha is 255, then ` d="`, the outline `d`
    the contour tracer produced, and `"/>` with a newline.
   */
  function FormatPath(c: Color, opacity: OpacityTable, d: string): string
  {
    "<path " + (FillAttr(c) + (OpacityAttr(c, opacity) + (" d=\"" + (d + "\"/>\n"))))
  }

  /** The attributes of a `<path>` element, in the order they are written. */
  datatype PathAttrs = PathAttrs(red: nat, green: nat, blue: nat, opacity: Option<string>, d: string)

  /** The colour channels of `fill="rgb(R,G,B)"`. */
  datatype Rgb = Rgb(red: nat, green: nat, blue: nat)

  /** Reads `fill="rgb(R,G,B)"` from the front of `s`. */
  function ParseFill(s: string): Option<Parsed<Rgb>>
  {
    var s1 :- Expect("fill=\"rgb(", s);
    var red :- ParseNat(s1);
    var s2 :- Expect(",", red.rest);
    var green :- ParseNat(s2);
    var s3 :- Expect(",", green.rest);
    var blue :- ParseNat(s3);
    var s4 :- Expect(")\"", blue.rest);
    Some(Parsed(Rgb(red.value, green.value, blue.value), s4))
  }

  /** Reads an optional ` opacity="..."` from the front of `s`. */
  function ParseOpacity(s: string): Option<Parsed<Option<string>>>
  {
    if StartsWith(s, " opacity=\"") then
      var value :- SplitAtChar(s[10..], '"');
      Some(Parsed(Some(value.value), value.rest[1..]))
    else
      Some(Parsed(None, s))
  }

  /** Reads a fragment of the shape `FormatPath` writes; `None` for anything else. */
  function ParsePath(s: string): Option<PathAttrs>
  {
    var s1 :- Expect("<path ", s);
    var fill :- ParseFill(s1);
    var opacity :- ParseOpacity(fill.rest);
    var s2 :- Expect(" d=\"", opacity.rest);
    var d :- StripSuffix(s2, "\"/>\n");
    Some(PathAttrs(fill.value.red, fill.value.green, fill.value.blue, opacity.value, d))
  }

  lemma ParseFillAttr(c: Color, rest: string)
    requires rest == [] || !IsDigit(rest[0])
    ensures ParseFill(FillAttr(c) + rest) == Some(Parsed(Rgb(c.r, c.g, c.b), rest))
  {
    var afterBlue := ")\"" + rest;
    var afterGreen := "," + (Decimal(c.b) + afterBlue);
    var afterRed := "," + (Decimal(c.g) + afterGreen);
    var close := ")\"";
    assert FillAttr(c) + rest == "fill=\"rgb(" + (Decimal(c.r) + afterRed) by {
      var blue := Decimal(c.b) + close;
      var green := Decimal(c.g) + ("," + blue);
      var red := Decimal(c.r) + ("," + green);
      Assoc3("fill=\"rgb(", red, rest);
      Assoc3(Decimal(c.r), "," + green, rest);
      Assoc3(",", green, rest);
      Assoc3(Decimal(c.g), "," + blue, rest);
      Assoc3(",", blue, rest);
      Assoc3(Decimal(c.b), close, rest);
    }
    ExpectConcat("fill=\"rgb(", Decimal(c.r) + afterRed);
    ParseDecimal(c.r, afterRed);
    ExpectConcat(",", Decimal(c.g) + afterGreen);
    ParseDecimal(c.g, afterGreen);
    ExpectConcat(",", Decimal(c.b) + afterBlue);
    ParseDecimal(c.b, afterBlue);
    ExpectConcat(")\"", rest);
  }

  lemma ParseOpacityAttr(c: Color, opacity: OpacityTable, rest: string)
    requires c.a != 255 ==> '"' !in opacity[c.a]
    requires !StartsWith(rest, " opacity=\"")
    ensures ParseOpacity(OpacityAttr(c, opacity) + rest)
         == Some(Parsed(if c.a == 255 then None else Some(opacity[c.a]), rest))
  {
    if c.a == 255 {
      assert OpacityAttr(c, opacity) + rest == rest;
    } else {
      var s := OpacityAttr(c, opacity) + rest;
      assert s == " opacity=\"" + (opacity[c.a] + ['"'] + rest);
      assert s[10..] == opacity[c.a] + ['"'] + rest;
      SplitAfter(opacity[c.a], '"', rest);
      assert (['"'] + rest)[1..] == rest;
    }
  }

  /**
    Reading a fragment back recovers the colour's red, green and blue values,
    the outline data, and an opacity attribute that is present exactly when
    alpha is not 255, with the table's entry for that alpha as its value.
    The opacity text must not contain a double quote (it would end the
    attribute early).
   */
  lemma ParseFormatPath(c: Color, opacity: OpacityTable, d: string)
    requires c.a != 255 ==> '"' !in opacity[c.a]
    ensures ParsePath(FormatPath(c, opacity, d))
         == Some(PathAttrs(c.r, c.g, c.b, if c.a == 255 then None else Some(opacity[c.a]), d))
  {
    var tail := "\"/>\n";
    var rest := " d=\"" + (d + tail);
    var afterFill := OpacityAttr(c, opacity) + rest;
    ExpectConcat("<path ", FillAttr(c) + afterFill);
    assert !StartsWith(rest, " opacity=\"") by {
      if 10 <= |rest| { assert rest[..10][1] != " opacity=\""[1]; }
    }
    assert rest[0] == ' ';
    ParseFillAttr(c, afterFill);
    ParseOpacityAttr(c, opacity, rest);
    ExpectConcat(" d=\"", d + tail);
    StripSuffixConcat(d, tail);
  }
}
