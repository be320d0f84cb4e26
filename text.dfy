/**
  Text helpers shared by the formatters: an Option type for the readers that
  take formatted strings apart again, the decimal rendering that Rust's
  `write!("{}", n)` performs on an unsigned integer, and the prefix, suffix
  and delimiter matching those readers are built from.
 */
module Text {

  datatype Option<+T> = None | Some(value: T) {
    predicate IsFailure() { None? }
    function PropagateFailure<U>(): Option<U> requires None? { None }
    function Extract(): T requires Some? { value }
  }

  /** A value read from the front of a string, and what is left after it. */
  datatype Parsed<+T> = Parsed(value: T, rest: string)

  predicate IsDigit(ch: char) { '0' <= ch <= '9' }

  predicate AllDigits(s: string) { forall i :: 0 <= i < |s| ==> IsDigit(s[i]) }

  function DigitChar(d: nat): (ch: char)
    requires d < 10
    ensures IsDigit(ch) && ch as int - '0' as int == d
  {
    (d + '0' as int) as char
  }

  /**
    The decimal text of `n`, most significant digit first, as `{}` renders a
    `u8` or `u32`: never empty, digits only, and no leading zero except in "0".
   */
  function Decimal(n: nat): (s: string)
    ensures 0 < |s| && AllDigits(s)
    ensures (s[0] == '0') == (n == 0)
    decreases n
  {
    if n < 10 then [DigitChar(n)] else Decimal(n / 10) + [DigitChar(n % 10)]
  }

  /** The number a string of digits denotes. */
  function DigitsValue(s: string): nat
    requires AllDigits(s)
  {
    if s == [] then 0 else DigitsValue(s[..|s| - 1]) * 10 + (s[|s| - 1] as int - '0' as int)
  }

  /** The length of the longest run of digits at the front of `s`. */
  function DigitRun(s: string): (k: nat)
    ensures k <= |s|
    ensures forall i :: 0 <= i < k ==> IsDigit(s[i])
    ensures k < |s| ==> !IsDigit(s[k])
  {
    if s == [] || !IsDigit(s[0]) then 0 else 1 + DigitRun(s[1..])
  }

  /** Reads a decimal number from the front of `s`; fails when `s` does not start with a digit. */
  function ParseNat(s: string): Option<Parsed<nat>>
  {
    var k := DigitRun(s);
    if k == 0 then None else Some(Parsed(DigitsValue(s[..k]), s[k..]))
  }

  lemma {:induction false} DecimalValue(n: nat)
    ensures DigitsValue(Decimal(n)) == n
    decreases n
  {
    if n >= 10 {
      var s := Decimal(n);
      assert s[..|s| - 1] == Decimal(n / 10);
      DecimalValue(n / 10);
    }
  }

  lemma {:induction false} DigitRunOfDigits(ds: string, rest: string)
    requires AllDigits(ds)
    requires rest == [] || !IsDigit(rest[0])
    ensures DigitRun(ds + rest) == |ds|
  {
    if ds != [] {
      assert (ds + rest)[1..] == ds[1..] + rest;
      DigitRunOfDigits(ds[1..], rest);
    }
  }

  /** Reading back the decimal text of `n` gives `n`, provided no digit follows it. */
  lemma ParseDecimal(n: nat, rest: string)
    requires rest == [] || !IsDigit(rest[0])
    ensures ParseNat(Decimal(n) + rest) == Some(Parsed(n, rest))
  {
    var s := Decimal(n);
    DigitRunOfDigits(s, rest);
    assert (s + rest)[..|s|] == s;
    assert (s + rest)[|s|..] == rest;
    DecimalValue(n);
  }

  predicate StartsWith(s: string, prefix: string) {
    |prefix| <= |s| && s[..|prefix|] == prefix
  }

  /** What follows `prefix` at the front of `s`, if `s` starts with it. */
  function Expect(prefix: string, s: string): (r: Option<string>)
  {
    if StartsWith(s, prefix) then Some(s[|prefix|..]) else None
  }

  /** `s` without its trailing `suffix`, if it ends with it. */
  function StripSuffix(s: string, suffix: string): Option<string>
  {
    if |suffix| <= |s| && s[|s| - |suffix|..] == suffix then Some(s[..|s| - |suffix|]) else None
  }

  /** The position of the first `ch` in `s`, or `|s|` when there is none. */
  function FindChar(s: string, ch: char): (k: nat)
    ensures k <= |s|
    ensures forall i :: 0 <= i < k ==> s[i] != ch
    ensures k < |s| ==> s[k] == ch
  {
    if s == [] then 0 else if s[0] == ch then 0 else 1 + FindChar(s[1..], ch)
  }

  /** Splits `s` at its first `ch`: the text before it, and the rest starting at `ch`. */
  function SplitAtChar(s: string, ch: char): Option<Parsed<string>>
  {
    var k := FindChar(s, ch);
    if k == |s| then None else Some(Parsed(s[..k], s[k..]))
  }

  lemma ExpectConcat(prefix: string, rest: string)
    ensures Expect(prefix, prefix + rest) == Some(rest)
  {
    assert (prefix + rest)[..|prefix|] == prefix;
  }

  lemma StripSuffixConcat(s: string, suffix: string)
    ensures StripSuffix(s + suffix, suffix) == Some(s)
  {
    var t := s + suffix;
    assert t[|t| - |suffix|..] == suffix;
    assert t[..|t| - |suffix|] == s;
  }

  lemma {:induction false} FindCharAfter(v: string, ch: char, rest: string)
    requires ch !in v
    ensures FindChar(v + [ch] + rest, ch) == |v|
  {
    if v != [] {
      assert (v + [ch] + rest)[1..] == v[1..] + [ch] + rest;
      FindCharAfter(v[1..], ch, rest);
    }
  }

  /** Splitting at the first `ch` finds the end of a `ch`-free text. */
  lemma SplitAfter(v: string, ch: char, rest: string)
    requires ch !in v
    ensures SplitAtChar(v + [ch] + rest, ch) == Some(Parsed(v, [ch] + rest))
  {
    FindCharAfter(v, ch, rest);
    var s := v + [ch] + rest;
    assert s[..|v|] == v;
    assert s[|v|..] == [ch] + rest;
  }

  lemma Assoc3(a: string, b: string, c: string)
    ensures (a + b) + c == a + (b + c)
  {
  }

  /** The concatenation of a list of strings, as `Vec<String>::concat` builds it. */
  function Concat(parts: seq<string>): string
  {
    if parts == [] then "" else parts[0] + Concat(parts[1..])
  }
}
