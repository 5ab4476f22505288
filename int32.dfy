/**
 * Int32.TryParse(string, out int) with the default NumberStyles.Integer and the
 * invariant culture's signs, and the decimal Int32.ToString() it inverts.
 */
module Int32Text {
  import opened Wrappers
  import opened Strings

  const MinInt32: int := -0x8000_0000
  const MaxInt32: int := 0x7FFF_FFFF

  function DigitValue(c: char): nat
    requires IsDigit(c)
  {
    c as int - '0' as int
  }

  /** The value of a string of decimal digits, most significant first. */
  function DigitsValue(s: string): nat
    requires AllDigits(s)
  {
    if s == [] then 0 else DigitsValue(s[..|s| - 1]) * 10 + DigitValue(s[|s| - 1])
  }

  /** An optional '+' or '-' followed by one or more digits; the value must fit in 32 bits. */
  function ParseSigned(t: string): (r: Option<int>)
    ensures r.Some? ==> MinInt32 <= r.value <= MaxInt32
  {
    var negative := t != [] && t[0] == '-';
    var digits := if t != [] && (t[0] == '-' || t[0] == '+') then t[1..] else t;
    if digits == [] || !AllDigits(digits) then None
    else
      var v: int := if negative then -(DigitsValue(digits) as int) else DigitsValue(digits);
      if MinInt32 <= v <= MaxInt32 then Some(v) else None
  }

  /** Optional leading white space, a signed number, optional trailing white space. */
  function TryParse(s: string): (r: Option<int>)
    ensures r.Some? ==> MinInt32 <= r.value <= MaxInt32
  {
    ParseSigned(TrimWith(s, NumberWhite))
  }

  function DigitChar(d: nat): (c: char)
    requires d < 10
    ensures IsDigit(c) && DigitValue(c) == d
  {
    ('0' as int + d) as char
  }

  /** The shortest decimal digits of n. */
  function NatToDigits(n: nat): (r: string)
    ensures r != [] && AllDigits(r) && DigitsValue(r) == n
    ensures |r| > 1 ==> r[0] != '0'
  {
    if n < 10 then [DigitChar(n)]
    else
      var r := NatToDigits(n / 10) + [DigitChar(n % 10)];
      assert r[..|r| - 1] == NatToDigits(n / 10);
      r
  }

  /** Int32.ToString(): decimal digits with a leading '-' for negative values. */
  function Int32ToString(n: int): string
    requires MinInt32 <= n <= MaxInt32
  {
    if n < 0 then "-" + NatToDigits(-n) else NatToDigits(n)
  }

  /** Parsing what Int32.ToString() prints gives back the number. */
  lemma TryParseToString(n: int)
    requires MinInt32 <= n <= MaxInt32
    ensures TryParse(Int32ToString(n)) == Some(n)
  {
    var s := Int32ToString(n);
    var d := NatToDigits(if n < 0 then -n else n);
    assert ParseSigned(s) == Some(n) by {
      if n < 0 {
        assert s[1..] == d;
      }
    }
    assert s[|s| - 1] == d[|d| - 1];
    TrimKeepsUntrimmable(s, NumberWhite);
  }

  /** White space around a number, such as the '\r' of a CRLF line ending, is ignored. */
  lemma TryParseIgnoresSurroundingWhite(pre: string, s: string, post: string)
    requires AllWith(pre, NumberWhite) && AllWith(post, NumberWhite)
    ensures TryParse(pre + s + post) == TryParse(s)
  {
    TrimIgnoresSurroundingWith(pre, s, post, NumberWhite);
  }

  /** A trailing '\r' does not change what a string parses as. */
  lemma TryParseIgnoresCarriageReturn(s: string)
    ensures TryParse(s + "\r") == TryParse(s)
  {
    assert [] + s + "\r" == s + "\r";
    assert AllWith("\r", NumberWhite);
    TryParseIgnoresSurroundingWhite([], s, "\r");
  }
}
