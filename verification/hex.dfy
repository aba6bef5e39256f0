/** Bytes and Python's `hexdigest()` rendering of a digest. */
module Hex {

  newtype byte = x: int | 0 <= x < 256

  /** A lower-case hexadecimal digit, the only kind `hexdigest()` produces. */
  predicate IsDigit(c: char) {
    '0' <= c <= '9' || 'a' <= c <= 'f'
  }

  /** The character Python uses for a nibble. */
  function Digit(n: int): (c: char)
    requires 0 <= n < 16
    ensures IsDigit(c)
  {
    if n < 10 then ('0' as int + n) as char else ('a' as int + n - 10) as char
  }

  /** The nibble a digit stands for; undoes `Digit`. */
  function DigitValue(c: char): (n: int)
    requires IsDigit(c)
    ensures 0 <= n < 16 && Digit(n) == c
  {
    if c <= '9' then c as int - '0' as int else c as int - 'a' as int + 10
  }

  /** `hexdigest()`: two lower-case digits per byte, high nibble first. */
  function Encode(bs: seq<byte>): (r: string)
    ensures |r| == 2 * |bs|
    ensures forall i :: 0 <= i < |r| ==> IsDigit(r[i])
  {
    if |bs| == 0 then ""
    else [Digit(bs[0] as int / 16), Digit(bs[0] as int % 16)] + Encode(bs[1..])
  }

  /** Reads the digits back, two at a time. */
  function Decode(s: string): (r: seq<byte>)
    requires |s| % 2 == 0
    requires forall i :: 0 <= i < |s| ==> IsDigit(s[i])
    ensures |r| == |s| / 2
  {
    if |s| == 0 then []
    else [(DigitValue(s[0]) * 16 + DigitValue(s[1])) as byte] + Decode(s[2..])
  }

  lemma ByteOfNibbles(b: byte)
    ensures DigitValue(Digit(b as int / 16)) * 16 + DigitValue(Digit(b as int % 16)) == b as int
  {
  }

  lemma {:induction false} DecodeEncode(bs: seq<byte>)
    ensures Decode(Encode(bs)) == bs
  {
    if |bs| > 0 {
      var e := Encode(bs);
      assert e[2..] == Encode(bs[1..]);
      ByteOfNibbles(bs[0]);
      DecodeEncode(bs[1..]);
    }
  }

  /** Different digests never render to the same text. */
  lemma EncodeInjective(a: seq<byte>, b: seq<byte>)
    requires Encode(a) == Encode(b)
    ensures a == b
  {
    DecodeEncode(a);
    DecodeEncode(b);
  }
}
