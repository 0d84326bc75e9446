/** Bytes, .NET's ASCII encoding and Array.IndexOf. */
module Bytes {

  type byte = b: int | 0 <= b < 256

  const SpaceByte: byte := 32
  const NullByte: byte := 0
  /** .NET's ASCII encoder and decoder replace what they cannot map with '?'. */
  const ReplacementByte: byte := 63

  predicate IsAscii(s: string) {
    forall i :: 0 <= i < |s| ==> s[i] as int < 128
  }

  /** Encoding.ASCII.GetBytes, one character. */
  function EncodeChar(c: char): byte {
    if c as int < 128 then c as int else ReplacementByte
  }

  /** Encoding.ASCII.GetString, one byte. */
  function DecodeByte(b: byte): char {
    if b < 128 then b as char else '?'
  }

  function AsciiEncode(s: string): (r: seq<byte>)
    ensures |r| == |s|
  {
    seq(|s|, i requires 0 <= i < |s| => EncodeChar(s[i]))
  }

  function AsciiDecode(bs: seq<byte>): (r: string)
    ensures |r| == |bs|
  {
    seq(|bs|, i requires 0 <= i < |bs| => DecodeByte(bs[i]))
  }

  lemma AsciiEncodeConcat(a: string, b: string)
    ensures AsciiEncode(a + b) == AsciiEncode(a) + AsciiEncode(b)
  {
    assert forall i :: 0 <= i < |a + b| ==> AsciiEncode(a + b)[i] == (AsciiEncode(a) + AsciiEncode(b))[i];
  }

  /** Decoding what was encoded gives back an ASCII string; any other
      character comes back as '?'. */
  lemma AsciiRoundTrip(s: string)
    requires IsAscii(s)
    ensures AsciiDecode(AsciiEncode(s)) == s
  {
    assert forall i :: 0 <= i < |s| ==> AsciiDecode(AsciiEncode(s))[i] == s[i];
  }

  /** Bytes below 128 survive decoding and re-encoding. */
  lemma AsciiDecodeRoundTrip(bs: seq<byte>)
    requires forall i :: 0 <= i < |bs| ==> bs[i] < 128
    ensures AsciiEncode(AsciiDecode(bs)) == bs
  {
    assert forall i :: 0 <= i < |bs| ==> AsciiEncode(AsciiDecode(bs))[i] == bs[i];
  }

  /** Only ' ' encodes to the space byte and only '\0' to the NUL byte, so
      searching the encoding for either finds the character itself. */
  lemma EncodeCharSeparators(c: char)
    ensures EncodeChar(c) == SpaceByte <==> c == ' '
    ensures EncodeChar(c) == NullByte <==> c == '\0'
  {
  }

  /** Only the space byte decodes to ' ' and only the NUL byte to '\0'. */
  lemma DecodeByteSeparators(b: byte)
    ensures DecodeByte(b) == ' ' <==> b == SpaceByte
    ensures DecodeByte(b) == '\0' <==> b == NullByte
  {
  }

  /** Array.IndexOf(s, b, from): the first index at or after `from` holding
      `b`, or -1 when there is none. */
  function IndexOf(s: seq<byte>, b: byte, from: nat): (k: int)
    requires from <= |s|
    ensures k == -1 || (from <= k < |s| && s[k] == b)
    ensures k == -1 ==> forall j :: from <= j < |s| ==> s[j] != b
    ensures k != -1 ==> forall j :: from <= j < k ==> s[j] != b
    decreases |s| - from
  {
    if from == |s| then -1
    else if s[from] == b then from
    else IndexOf(s, b, from + 1)
  }

  /** The index IndexOf returns is determined by where `b` first occurs. */
  lemma IndexOfAt(s: seq<byte>, b: byte, from: nat, k: nat)
    requires from <= k < |s| && s[k] == b
    requires forall j :: from <= j < k ==> s[j] != b
    ensures IndexOf(s, b, from) == k
  {
  }
}
