/**
  Document assembly of `dmi2svg`, `dmi2svg_symbol` and `dmi2svg_symbol_map`:
  a header naming the frame's size, the concatenated path fragments, and a
  closing tag. Element width and height are always the text `auto`; the real
  pixel size goes into `viewBox="0 0 W H"`. `ParseSvgDocument` and
  `ParseSymbolDocument` read such documents back and are the reference the
  formats are proved against.
 */
module Document {
  import opened Text

  /** ` width="auto" height="auto" viewBox="0 0 W H"`, shared by both headers. */
  function SizeAttrs(w: nat, h: nat): string
  {
    " width=\"auto\" height=\"auto\" viewBox=\"0 0 " + (Decimal(w) + (" " + (Decimal(h) + "\"")))
  }

  /** The `<svg>` header of `dmi2svg`: namespace, size attributes, `shape-rendering="crispEdges"`, then `>` and a newline. */
  function SvgHeader(w: nat, h: nat): string
  {
    "<svg xmlns=\"http://www.w3.org/2000/svg\"" + (SizeAttrs(w, h) + " shape-rendering=\"crispEdges\">\n")
  }

  /** A full SVG document: the header, the fragments in order, and `</svg>` with a newline. */
  function SvgDocument(w: nat, h: nat, paths: seq<string>): string
  {
    SvgHeader(w, h) + (Concat(paths) + "</svg>\n")
  }

  /** The `<symbol>` header: the id, the size attributes, then `>` and a newline; no `shape-rendering`. */
  function SymbolHeader(id: string, w: nat, h: nat): string
  {
    "<symbol id=\"" + (id + ("\"" + (SizeAttrs(w, h) + ">\n")))
  }

  /** A symbol element: the header, the fragments in order, and `</symbol>` with a newline. */
  function SymbolDocument(id: string, w: nat, h: nat, paths: seq<string>): string
  {
    SymbolHeader(id, w, h) + (Concat(paths) + "</symbol>\n")
  }

  datatype Size = Size(width: nat, height: nat)

  /** What a full document says: its view box and its body. */
  datatype SvgParts = SvgParts(width: nat, height: nat, body: string)

  /** What a symbol element says: its id, its view box and its body. */
  datatype SymbolParts = SymbolParts(id: string, width: nat, height: nat, body: string)

  /** Reads the size attributes from the front of `s`. */
  function ParseSizeAttrs(s: string): Option<Parsed<Size>>
  {
    var s1 :- Expect(" width=\"auto\" height=\"auto\" viewBox=\"0 0 ", s);
    var w :- ParseNat(s1);
    var s2 :- Expect(" ", w.rest);
    var h :- ParseNat(s2);
    var s3 :- Expect("\"", h.rest);
    Some(Parsed(Size(w.value, h.value), s3))
  }

  /** Reads a document of the shape `SvgDocument` writes; `None` for anything else. */
  function ParseSvgDocument(s: string): Option<SvgParts>
  {
    var s1 :- Expect("<svg xmlns=\"http://www.w3.org/2000/svg\"", s);
    var size :- ParseSizeAttrs(s1);
    var s2 :- Expect(" shape-rendering=\"crispEdges\">\n", size.rest);
    var body :- StripSuffix(s2, "</svg>\n");
    Some(SvgParts(size.value.width, size.value.height, body))
  }

  /** Reads a symbol of the shape `SymbolDocument` writes; `None` for anything else. */
  function ParseSymbolDocument(s: string): Option<SymbolParts>
  {
    var s1 :- Expect("<symbol id=\"", s);
    var id :- SplitAtChar(s1, '"');
    var size :- ParseSizeAttrs(id.rest[1..]);
    var s2 :- Expect(">\n", size.rest);
    var body :- StripSuffix(s2, "</symbol>\n");
    Some(SymbolParts(id.value, size.value.width, size.value.height, body))
  }

  lemma ParseSize(w: nat, h: nat, rest: string)
    requires rest == [] || !IsDigit(rest[0])
    ensures ParseSizeAttrs(SizeAttrs(w, h) + rest) == Some(Parsed(Size(w, h), rest))
  {
    var afterH := "\"" + rest;
    var afterW := " " + (Decimal(h) + afterH);
    var lead := " width=\"auto\" height=\"auto\" viewBox=\"0 0 ";
    assert SizeAttrs(w, h) + rest == lead + (Decimal(w) + afterW);
    ExpectConcat(lead, Decimal(w) + afterW);
    ParseDecimal(w, afterW);
    ExpectConcat(" ", Decimal(h) + afterH);
    ParseDecimal(h, afterH);
    ExpectConcat("\"", rest);
  }

  /** Reading a full document back recovers the frame's width and height and the concatenated fragments. */
  lemma ParseSvg(w: nat, h: nat, paths: seq<string>)
    ensures ParseSvgDocument(SvgDocument(w, h, paths)) == Some(SvgParts(w, h, Concat(paths)))
  {
    var lead := "<svg xmlns=\"http://www.w3.org/2000/svg\"";
    var tail := "</svg>\n";
    var close := " shape-rendering=\"crispEdges\">\n";
    var afterSize := close + (Concat(paths) + tail);
    assert SvgDocument(w, h, paths) == lead + (SizeAttrs(w, h) + afterSize);
    ExpectConcat(lead, SizeAttrs(w, h) + afterSize);
    ParseSize(w, h, afterSize);
    ExpectConcat(close, Concat(paths) + tail);
    StripSuffixConcat(Concat(paths), tail);
  }

  /**
    Reading a symbol back recovers its id, the frame's width and height and
    the concatenated fragments, provided the id holds no double quote (one
    would end the attribute early).
   */
  lemma ParseSymbol(id: string, w: nat, h: nat, paths: seq<string>)
    requires '"' !in id
    ensures ParseSymbolDocument(SymbolDocument(id, w, h, paths)) == Some(SymbolParts(id, w, h, Concat(paths)))
  {
    var lead := "<symbol id=\"";
    var tail := "</symbol>\n";
    var afterSize := ">\n" + (Concat(paths) + tail);
    var afterId := SizeAttrs(w, h) + afterSize;
    var q, after, body := "\"", ">\n", Concat(paths) + tail;
    assert SymbolDocument(id, w, h, paths) == lead + (id + ['"'] + afterId) by {
      var sa := SizeAttrs(w, h);
      Assoc3(lead, id + (q + (sa + after)), body);
      Assoc3(id, q + (sa + after), body);
      Assoc3(q, sa + after, body);
      Assoc3(sa, after, body);
      Assoc3(id, q, afterId);
    }
    ExpectConcat(lead, id + ['"'] + afterId);
    SplitAfter(id, '"', afterId);
    assert (['"'] + afterId)[1..] == afterId;
    ParseSize(w, h, afterSize);
    ExpectConcat(">\n", Concat(paths) + tail);
    StripSuffixConcat(Concat(paths), tail);
  }
}
