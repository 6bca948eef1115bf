/** Lowercase Base16 (section 8 of RFC 4648 with the alphabet in lower case), as Go's `hex.EncodeToString`. */
module Hex {
  import opened Common

  /** A SHA-256 digest: 32 octets. */
  type Digest = d: seq<byte> | |d| == 32 witness seq(32, i => 0 as byte)

  /** The alphabet `0123456789abcdef`. */
  predicate IsHexDigit(c: char) { '0' <= c <= '9' || 'a' <= c <= 'f' }

  /** The digit for a nibble. */
  function Digit(n: nat): (c: char)
    requires n < 16
    ensures IsHexDigit(c)
  {
    if n < 10 then ('0' as int + n) as char else ('a' as int + n - 10) as char
  }

  /** The value of one digit of the alphabet. */
  function DigitValue(c: char): (v: nat)
    requires IsHexDigit(c)
    ensures v < 16 && Digit(v) == c
  {
    if c <= '9' then (c as int - '0' as int) else (c as int - 'a' as int) + 10
  }

  lemma DigitRoundTrip(n: nat)
    requires n < 16
    ensures DigitValue(Digit(n)) == n
  {
  }

  /** Two digits per octet, high nibble first. */
  function Encode(bs: seq<byte>): (r: string)
    ensures |r| == 2 * |bs|
    ensures forall k :: 0 <= k < |r| ==> IsHexDigit(r[k])
  {
    if bs == [] then ""
    else [Digit(bs[0] as nat / 16), Digit(bs[0] as nat % 16)] + Encode(bs[1..])
  }

  /** The inverse of `Encode` on strings of even length over the alphabet. */
  function Decode(s: string): (r: seq<byte>)
    requires |s| % 2 == 0
    requires forall k :: 0 <= k < |s| ==> IsHexDigit(s[k])
    ensures 2 * |r| == |s|
  {
    if s == [] then []
    else [(16 * DigitValue(s[0]) + DigitValue(s[1])) as byte] + Decode(s[2..])
  }

  lemma {:induction false} DecodeEncode(bs: seq<byte>)
    ensures Decode(Encode(bs)) == bs
  {
    if bs != [] {
      var e := Encode(bs);
      var hi, lo := bs[0] as nat / 16, bs[0] as nat % 16;
      assert e[2..] == Encode(bs[1..]);
      DecodeEncode(bs[1..]);
      DigitRoundTrip(hi);
      DigitRoundTrip(lo);
      assert e[0] == Digit(hi) && e[1] == Digit(lo);
      assert (16 * hi + lo) as byte == bs[0];
      assert bs == [bs[0]] + bs[1..];
    }
  }

  /** Different octet strings never share an encoding. */
  lemma EncodeInjective(a: seq<byte>, b: seq<byte>)
    requires Encode(a) == Encode(b)
    ensures a == b
  {
    DecodeEncode(a);
    DecodeEncode(b);
  }
}
