/**
 * The `Hex` column: '#' followed by R, G and B each in Python's `02x`
 * format, i.e. two lower-case, zero-padded hexadecimal digits per channel.
 */
module HexCode {
  import opened Wrappers
  import opened Colour

  predicate IsLowerHexDigit(ch: char) {
    '0' <= ch <= '9' || 'a' <= ch <= 'f'
  }

  /** The value of one lower-case hexadecimal digit. */
  function HexValue(ch: char): (v: Option<nat>)
    ensures v.Some? <==> IsLowerHexDigit(ch)
    ensures v.Some? ==> v.value < 16
  {
    if '0' <= ch <= '9' then Some(ch as int - '0' as int)
    else if 'a' <= ch <= 'f' then Some(ch as int - 'a' as int + 10)
    else None
  }

  /** The lower-case hexadecimal digit of `n`, as the `x` format writes it. */
  function HexDigit(n: nat): (ch: char)
    requires n < 16
    ensures IsLowerHexDigit(ch) && HexValue(ch) == Some(n)
  {
    if n < 10 then ('0' as int + n) as char else ('a' as int + (n - 10)) as char
  }

  /** The `02x` format spec: two digits, zero-padded. */
  function Hex2(n: Channel): string {
    [HexDigit(n / 16), HexDigit(n % 16)]
  }

  /** The canonical `#rrggbb` label of a colour. */
  function HexOf(c: Rgb): (s: string)
    ensures |s| == 7 && s[0] == '#'
    ensures forall i :: 1 <= i < 7 ==> IsLowerHexDigit(s[i])
  {
    "#" + Hex2(c.r) + Hex2(c.g) + Hex2(c.b)
  }

  /** Reads one channel from two hexadecimal digits. */
  function ParseByte(hi: char, lo: char): Option<Channel> {
    match (HexValue(hi), HexValue(lo))
    case (Some(h), Some(l)) => Some(h * 16 + l)
    case _ => None
  }

  /** Reads a `#rrggbb` label back into a colour. */
  function ParseHex(s: string): Option<Rgb> {
    if |s| != 7 || s[0] != '#' then None
    else
      match (ParseByte(s[1], s[2]), ParseByte(s[3], s[4]), ParseByte(s[5], s[6]))
      case (Some(r), Some(g), Some(b)) => Some(Rgb(r, g, b))
      case _ => None
  }

  lemma Hex2RoundTrip(n: Channel)
    ensures ParseByte(Hex2(n)[0], Hex2(n)[1]) == Some(n)
  {
    assert (n / 16) * 16 + n % 16 == n;
  }

  /** Decoding the hex label of a colour gives back that colour. */
  lemma HexRoundTrip(c: Rgb)
    ensures ParseHex(HexOf(c)) == Some(c)
  {
    var s := HexOf(c);
    assert s[1..3] == Hex2(c.r) && s[3..5] == Hex2(c.g) && s[5..7] == Hex2(c.b);
    Hex2RoundTrip(c.r);
    Hex2RoundTrip(c.g);
    Hex2RoundTrip(c.b);
  }

  lemma HexDigitOfValue(ch: char)
    requires IsLowerHexDigit(ch)
    ensures HexDigit(HexValue(ch).value) == ch
  {
  }

  lemma ParseByteCanonical(hi: char, lo: char, n: Channel)
    requires ParseByte(hi, lo) == Some(n)
    ensures Hex2(n) == [hi, lo]
  {
    var h, l := HexValue(hi).value, HexValue(lo).value;
    assert n == h * 16 + l;
    assert n / 16 == h && n % 16 == l;
    HexDigitOfValue(hi);
    HexDigitOfValue(lo);
  }

  /** A string that decodes to a colour is that colour's canonical label. */
  lemma HexCanonical(s: string, c: Rgb)
    requires ParseHex(s) == Some(c)
    ensures HexOf(c) == s
  {
    ParseByteCanonical(s[1], s[2], c.r);
    ParseByteCanonical(s[3], s[4], c.g);
    ParseByteCanonical(s[5], s[6], c.b);
    assert s == [s[0]] + [s[1], s[2]] + [s[3], s[4]] + [s[5], s[6]];
  }

  /** Distinct colours have distinct hex labels. */
  lemma HexOfInjective(a: Rgb, b: Rgb)
    requires HexOf(a) == HexOf(b)
    ensures a == b
  {
    HexRoundTrip(a);
    HexRoundTrip(b);
  }
}
