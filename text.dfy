/**
 * Decimal text of channel values, as Python's f-strings and JavaScript's
 * `Array.prototype.join` write non-negative integers, and small parsers
 * that read such text back.
 */
module Text {
  import opened Wrappers
  import opened Colour

  predicate IsDigit(ch: char) {
    '0' <= ch <= '9'
  }

  predicate AllDigits(s: string) {
    forall i :: 0 <= i < |s| ==> IsDigit(s[i])
  }

  /** No digit may directly follow a number: `t` is empty or starts with a non-digit. */
  predicate Delimited(t: string) {
    t == [] || !IsDigit(t[0])
  }

  function DigitChar(d: nat): char
    requires d < 10
  {
    ('0' as int + d) as char
  }

  /** The decimal text of `n`, without leading zeros. */
  function Digits(n: nat): (s: string)
    ensures s != [] && AllDigits(s)
    ensures |s| > 1 ==> s[0] != '0'
    decreases n
  {
    if n < 10 then [DigitChar(n)] else Digits(n / 10) + [DigitChar(n % 10)]
  }

  /** The number a digit string denotes. */
  function Value(s: string): nat
    requires AllDigits(s)
  {
    if s == [] then 0 else Value(s[..|s| - 1]) * 10 + (s[|s| - 1] as int - '0' as int)
  }

  lemma {:induction false} ValueOfDigits(n: nat)
    ensures Value(Digits(n)) == n
    decreases n
  {
    if n >= 10 {
      ValueOfDigits(n / 10);
      var s := Digits(n);
      assert s[..|s| - 1] == Digits(n / 10);
    }
  }

  /** Splits off the longest prefix of digits. */
  function TakeDigits(s: string): (r: (string, string))
    ensures r.0 + r.1 == s
    ensures AllDigits(r.0)
    ensures Delimited(r.1)
  {
    if s == [] || !IsDigit(s[0]) then ([], s)
    else
      var (d, rest) := TakeDigits(s[1..]);
      assert ([s[0]] + d) + rest == [s[0]] + (d + rest) == s;
      assert forall i :: 0 < i < |d| + 1 ==> ([s[0]] + d)[i] == d[i - 1];
      ([s[0]] + d, rest)
  }

  lemma {:induction false} TakeDigitsOf(d: string, t: string)
    requires AllDigits(d) && Delimited(t)
    ensures TakeDigits(d + t) == (d, t)
  {
    if d != [] {
      assert (d + t)[0] == d[0] && IsDigit(d[0]);
      assert (d + t)[1..] == d[1..] + t;
      TakeDigitsOf(d[1..], t);
      assert [d[0]] + d[1..] == d;
    } else {
      assert d + t == t;
    }
  }

  /** Drops the literal `lit` from the front of `s`, if it is there. */
  function Expect(lit: string, s: string): (r: Option<string>)
    ensures r.Some? <==> |lit| <= |s| && s[..|lit|] == lit
    ensures r.Some? ==> lit + r.value == s
  {
    if |lit| <= |s| && s[..|lit|] == lit then
      assert s == s[..|lit|] + s[|lit|..];
      Some(s[|lit|..])
    else None
  }

  lemma ExpectOf(lit: string, t: string)
    ensures Expect(lit, lit + t) == Some(t)
  {
    assert (lit + t)[..|lit|] == lit;
    assert (lit + t)[|lit|..] == t;
  }

  /** Reads a channel value written in decimal and returns the rest of the text. */
  function ParseChannel(s: string): (r: Option<(Channel, string)>)
    ensures r.Some? ==> |r.value.1| < |s|
  {
    var (d, rest) := TakeDigits(s);
    if d == [] || Value(d) >= 256 then None else Some((Value(d), rest))
  }

  lemma ParseChannelOf(n: Channel, t: string)
    requires Delimited(t)
    ensures ParseChannel(Digits(n) + t) == Some((n, t))
  {
    TakeDigitsOf(Digits(n), t);
    ValueOfDigits(n);
  }

  /** The three channels in decimal, separated by `sep`. */
  function TripleText(c: Rgb, sep: string): string {
    Digits(c.r) + sep + Digits(c.g) + sep + Digits(c.b)
  }

  /** Reads `sep` followed by one decimal channel. */
  function ParseSepChannel(sep: string, s: string): (r: Option<(Channel, string)>)
    ensures r.Some? ==> |r.value.1| < |s|
  {
    match Expect(sep, s)
    case None => None
    case Some(s1) => ParseChannel(s1)
  }

  /** Reads three decimal channels separated by `sep`. */
  function ParseTriple(s: string, sep: string): (r: Option<(Rgb, string)>)
    ensures r.Some? ==> |r.value.1| < |s|
  {
    match ParseChannel(s)
    case None => None
    case Some((red, s1)) =>
      match ParseSepChannel(sep, s1)
      case None => None
      case Some((green, s2)) =>
        match ParseSepChannel(sep, s2)
        case None => None
        case Some((blue, s3)) => Some((Rgb(red, green, blue), s3))
  }

  lemma ParseSepChannelOf(sep: string, n: Channel, t: string)
    requires Delimited(t)
    ensures ParseSepChannel(sep, sep + Digits(n) + t) == Some((n, t))
  {
    assert sep + Digits(n) + t == sep + (Digits(n) + t);
    ExpectOf(sep, Digits(n) + t);
    ParseChannelOf(n, t);
  }

  /** The three steps of `ParseTriple`, each read off separately. */
  lemma ParseTripleSteps(s: string, sep: string, c: Rgb, s1: string, s2: string, t: string)
    requires ParseChannel(s) == Some((c.r, s1))
    requires ParseSepChannel(sep, s1) == Some((c.g, s2))
    requires ParseSepChannel(sep, s2) == Some((c.b, t))
    ensures ParseTriple(s, sep) == Some((c, t))
  {
  }

  lemma ParseTripleOf(c: Rgb, sep: string, t: string)
    requires sep != [] && !IsDigit(sep[0]) && Delimited(t)
    ensures ParseTriple(TripleText(c, sep) + t, sep) == Some((c, t))
  {
    var dr, dg, db := Digits(c.r), Digits(c.g), Digits(c.b);
    var s2 := sep + db + t;
    var s1 := sep + dg + s2;
    assert TripleText(c, sep) + t == dr + s1;
    assert s1[0] == sep[0] && s2[0] == sep[0];
    ParseChannelOf(c.r, s1);
    ParseSepChannelOf(sep, c.g, s2);
    ParseSepChannelOf(sep, c.b, t);
    ParseTripleSteps(dr + s1, sep, c, s1, s2, t);
  }

  /** The `RGB` column: `f"({R}, {G}, {B})"`. */
  function RgbLabel(c: Rgb): string {
    "(" + TripleText(c, ", ") + ")"
  }

  /** Reads an `RGB` column entry back into a colour. */
  function ParseRgbLabel(s: string): Option<Rgb> {
    match Expect("(", s)
    case None => None
    case Some(s1) =>
      match ParseTriple(s1, ", ")
      case None => None
      case Some((c, rest)) => if rest == ")" then Some(c) else None
  }

  /** Reading the `RGB` label of a colour gives back that colour. */
  lemma RgbLabelRoundTrip(c: Rgb)
    ensures ParseRgbLabel(RgbLabel(c)) == Some(c)
  {
    var body := TripleText(c, ", ");
    assert RgbLabel(c) == "(" + (body + ")");
    ExpectOf("(", body + ")");
    ParseTripleOf(c, ", ", ")");
  }

  /** Distinct colours have distinct `RGB` labels. */
  lemma RgbLabelInjective(a: Rgb, b: Rgb)
    requires RgbLabel(a) == RgbLabel(b)
    ensures a == b
  {
    RgbLabelRoundTrip(a);
    RgbLabelRoundTrip(b);
  }

  /** JavaScript's `parts.join(sep)`. */
  function Join(sep: string, parts: seq<string>): string {
    if parts == [] then ""
    else if |parts| == 1 then parts[0]
    else parts[0] + sep + Join(sep, parts[1..])
  }

  /** The joined text of several parts, followed by `end`, split after the first part and `sep`. */
  lemma JoinSplit(sep: string, parts: seq<string>, end: string)
    requires |parts| > 1
    ensures Join(sep, parts) + end == parts[0] + (sep + (Join(sep, parts[1..]) + end))
  {
  }
}
