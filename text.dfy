/** Decimal rendering (Int32.ToString, Int64.ToString) and lower-case hex
    (Convert.ToHexString(..).ToLower()), each with the parser that undoes it. */
module Text {
  import opened Bytes


  predicate IsDigit(c: char) {
    '0' <= c <= '9'
  }

  predicate IsDecimal(s: string) {
    forall i :: 0 <= i < |s| ==> IsDigit(s[i])
  }

  predicate IsHexDigit(c: char) {
    '0' <= c <= '9' || 'a' <= c <= 'f'
  }

  predicate IsLowerHex(s: string) {
    forall i :: 0 <= i < |s| ==> IsHexDigit(s[i])
  }

  /** The decimal digit of `d`. */
  function DigitChar(d: nat): (c: char)
    requires d < 10
    ensures IsDigit(c)
  {
    ('0' as int + d) as char
  }

  /** The decimal rendering of a non-negative integer, without leading zeros. */
  function NatToString(n: nat): (r: string)
    decreases n
  {
    if n < 10 then [DigitChar(n)] else NatToString(n / 10) + [DigitChar(n % 10)]
  }

  function DigitValue(c: char): nat {
    if IsDigit(c) then c as int - '0' as int else 0
  }

  /** The value of a string of decimal digits; the partner of NatToString. */
  function ParseDecimal(s: string): nat
    decreases |s|
  {
    if s == [] then 0 else 10 * ParseDecimal(s[..|s| - 1]) + DigitValue(s[|s| - 1])
  }

  /** The rendering is a non-empty string of digits that parses back to `n`. */
  lemma {:induction false} NatToStringRoundTrip(n: nat)
    ensures |NatToString(n)| >= 1 && IsDecimal(NatToString(n))
    ensures ParseDecimal(NatToString(n)) == n
    decreases n
  {
    var s := NatToString(n);
    if n >= 10 {
      NatToStringRoundTrip(n / 10);
      assert s[..|s| - 1] == NatToString(n / 10);
      assert DigitValue(s[|s| - 1]) == n % 10;
    } else {
      assert DigitValue(s[0]) == n;
    }
  }

  /** A digit string contains neither a space nor a NUL. */
  lemma DecimalHasNoSeparators(s: string)
    requires IsDecimal(s)
    ensures ' ' !in s && '\0' !in s && '\n' !in s && IsAscii(s)
  {
    forall i | 0 <= i < |s| ensures s[i] != ' ' && s[i] != '\0' && s[i] != '\n' && s[i] as int < 128 {
      assert IsDigit(s[i]);
    }
  }

  /** Int64.ToString: a leading '-' for negative values. */
  function IntToString(i: int): string {
    if i < 0 then "-" + NatToString(-i) else NatToString(i)
  }

  function ParseInt(s: string): int {
    if |s| > 0 && s[0] == '-' then -(ParseDecimal(s[1..]) as int) else ParseDecimal(s)
  }

  lemma IntToStringRoundTrip(i: int)
    ensures ParseInt(IntToString(i)) == i
    ensures ' ' !in IntToString(i) && '\0' !in IntToString(i) && '\n' !in IntToString(i)
  {
    var m: nat := if i < 0 then -i else i;
    var d := NatToString(m);
    NatToStringRoundTrip(m);
    DecimalHasNoSeparators(d);
    if i < 0 {
      assert IntToString(i) == "-" + d;
      assert ("-" + d)[1..] == d;
    } else {
      assert IntToString(i) == d;
      assert IsDigit(d[0]);
    }
  }

  /** The lower-case digit of a nibble. */
  function HexDigit(d: nat): (c: char)
    requires d < 16
    ensures IsHexDigit(c)
  {
    if d < 10 then ('0' as int + d) as char else ('a' as int + d - 10) as char
  }

  /** Each byte becomes two hex digits, high nibble first. */
  function LowerHex(bs: seq<byte>): (r: string)
    ensures |r| == 2 * |bs|
    ensures IsLowerHex(r)
    decreases |bs|
  {
    if bs == [] then "" else [HexDigit(bs[0] / 16), HexDigit(bs[0] % 16)] + LowerHex(bs[1..])
  }

  function HexValue(c: char): nat {
    if '0' <= c <= '9' then c as int - '0' as int
    else if 'a' <= c <= 'f' then c as int - 'a' as int + 10
    else 0
  }

  function HexDecode(s: string): seq<byte>
    decreases |s|
  {
    if |s| < 2 then [] else [16 * (HexValue(s[0]) % 16) + HexValue(s[1]) % 16] + HexDecode(s[2..])
  }

  lemma HexDigitValue(d: nat)
    requires d < 16
    ensures HexValue(HexDigit(d)) == d
  {
  }

  /** One byte's two digits decode back to the byte. */
  lemma HexPairDecodes(b: byte)
    ensures 16 * (HexValue(HexDigit(b / 16)) % 16) + HexValue(HexDigit(b % 16)) % 16 == b
  {
    HexDigitValue(b / 16);
    HexDigitValue(b % 16);
  }

  /** The rendering decodes back to the bytes. */
  lemma {:induction false} LowerHexRoundTrip(bs: seq<byte>)
    ensures HexDecode(LowerHex(bs)) == bs
    decreases |bs|
  {
    if bs != [] {
      LowerHexRoundTrip(bs[1..]);
      var h := LowerHex(bs);
      assert h[2..] == LowerHex(bs[1..]);
      HexPairDecodes(bs[0]);
      assert [bs[0]] + bs[1..] == bs;
    }
  }
}
