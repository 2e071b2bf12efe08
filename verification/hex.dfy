/**
 The `%x` rendering of a digest: every byte becomes two lower-case hexadecimal
 digits, most significant nibble first. `Parse` is its inverse on well-formed text.
 */
module Hex {
  import opened Types

  const Digits := "0123456789abcdef"

  predicate IsHexDigit(c: char) {
    ('0' <= c <= '9') || ('a' <= c <= 'f')
  }

  /** Well-formed output of `%x`: an even number of lower-case hexadecimal digits. */
  predicate IsHexText(s: string) {
    |s| % 2 == 0 && forall i :: 0 <= i < |s| ==> IsHexDigit(s[i])
  }

  function DigitValue(c: char): (v: int)
    requires IsHexDigit(c)
    ensures 0 <= v < 16 && Digits[v] == c
  {
    if c <= '9' then c as int - '0' as int else c as int - 'a' as int + 10
  }

  /** The two characters `%x` writes for one byte. */
  function EncodeByte(b: byte): string
  {
    [Digits[b / 16], Digits[b % 16]]
  }

  function Encode(bs: seq<byte>): (s: string)
    ensures |s| == 2 * |bs|
    ensures IsHexText(s)
  {
    if bs == [] then "" else EncodeByte(bs[0]) + Encode(bs[1..])
  }

  function Parse(s: string): (bs: seq<byte>)
    requires IsHexText(s)
    ensures |bs| * 2 == |s|
  {
    if s == [] then []
    else [DigitValue(s[0]) * 16 + DigitValue(s[1])] + Parse(s[2..])
  }

  /** Decoding the rendered digest gives back the digest. */
  lemma {:induction false} ParseEncode(bs: seq<byte>)
    ensures Parse(Encode(bs)) == bs
  {
    if bs != [] {
      var s := Encode(bs);
      assert s[2..] == Encode(bs[1..]);
      ParseEncode(bs[1..]);
      assert DigitValue(s[0]) == bs[0] / 16;
      assert DigitValue(s[1]) == bs[0] % 16;
    }
  }

  /** Every well-formed hexadecimal text is the rendering of exactly one byte string. */
  lemma {:induction false} EncodeParse(s: string)
    requires IsHexText(s)
    ensures Encode(Parse(s)) == s
  {
    if s != [] {
      var bs := Parse(s);
      assert IsHexText(s[2..]);
      EncodeParse(s[2..]);
      var b := bs[0];
      assert b == DigitValue(s[0]) * 16 + DigitValue(s[1]);
      assert b / 16 == DigitValue(s[0]) && b % 16 == DigitValue(s[1]);
      assert bs[1..] == Parse(s[2..]);
    }
  }

  /** Distinct digests render to distinct checksums. */
  lemma EncodeInjective(a: seq<byte>, b: seq<byte>)
    ensures Encode(a) == Encode(b) <==> a == b
  {
    if Encode(a) == Encode(b) {
      ParseEncode(a);
      ParseEncode(b);
    }
  }
}
