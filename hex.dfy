/**
 * Lowercase base16 rendering of byte strings (the "base16" encoding of
 * section 8 of RFC 4648, written with the lower-case alphabet as Go's
 * encoding/hex emits it), together with a decoder that is its exact inverse.
 */
module Hex {
  import opened Wrappers

  type byte = b: int | 0 <= b < 256

  const Alphabet: string := "0123456789abcdef"

  /** The characters Encode may produce. */
  predicate IsLowerHex(c: char) {
    '0' <= c <= '9' || 'a' <= c <= 'f'
  }

  predicate IsLowerHexString(s: string) {
    forall i :: 0 <= i < |s| ==> IsLowerHex(s[i])
  }

  function HexDigit(n: int): (c: char)
    requires 0 <= n < 16
    ensures IsLowerHex(c)
    ensures DigitValue(c) == Some(n)
  {
    Alphabet[n]
  }

  /** The value of one lower-case hex digit; None for any other character. */
  function DigitValue(c: char): (d: Option<int>) {
    if '0' <= c <= '9' then Some(c as int - '0' as int)
    else if 'a' <= c <= 'f' then Some(c as int - 'a' as int + 10)
    else None
  }

  /** Each byte becomes two digits, high nibble first. */
  function Encode(bs: seq<byte>): (s: string)
    ensures |s| == 2 * |bs|
    ensures IsLowerHexString(s)
  {
    if bs == [] then ""
    else [HexDigit(bs[0] / 16), HexDigit(bs[0] % 16)] + Encode(bs[1..])
  }

  /** Reads pairs of lower-case digits; None on odd length or a non-digit. */
  function Decode(s: string): (r: Option<seq<byte>>)
    decreases |s|
  {
    if s == [] then Some([])
    else if |s| == 1 then None
    else match (DigitValue(s[0]), DigitValue(s[1]), Decode(s[2..]))
      case (Some(hi), Some(lo), Some(rest)) => Some([(hi * 16 + lo) as byte] + rest)
      case _ => None
  }

  lemma DigitValueBound(c: char, n: int)
    requires DigitValue(c) == Some(n)
    ensures 0 <= n < 16 && HexDigit(n) == c
  {
  }

  /** Decoding the rendering of any byte string gives the bytes back. */
  lemma {:induction false} DecodeEncode(bs: seq<byte>)
    ensures Decode(Encode(bs)) == Some(bs)
  {
    if bs != [] {
      var s := Encode(bs);
      assert s[2..] == Encode(bs[1..]);
      DecodeEncode(bs[1..]);
      assert bs == [bs[0]] + bs[1..];
    }
  }

  /** A byte built from two digits splits back into the same two digits. */
  lemma NibbleSplit(hi: int, lo: int)
    requires 0 <= hi < 16 && 0 <= lo < 16
    ensures (hi * 16 + lo) / 16 == hi && (hi * 16 + lo) % 16 == lo
  {
  }

  /** Every string the decoder accepts is the rendering of what it decodes to. */
  lemma {:induction false} EncodeDecode(s: string, bs: seq<byte>)
    requires Decode(s) == Some(bs)
    ensures Encode(bs) == s
    decreases |s|
  {
    if s != [] {
      var hi := DigitValue(s[0]).value;
      var lo := DigitValue(s[1]).value;
      var rest := Decode(s[2..]).value;
      DigitValueBound(s[0], hi);
      DigitValueBound(s[1], lo);
      NibbleSplit(hi, lo);
      EncodeDecode(s[2..], rest);
      var b: byte := hi * 16 + lo;
      assert bs == [b] + rest;
      calc {
        Encode(bs);
        [HexDigit(b / 16), HexDigit(b % 16)] + Encode(rest);
        [s[0], s[1]] + s[2..];
        s;
      }
    }
  }

  /** Distinct byte strings never share a rendering. */
  lemma EncodeInjective(a: seq<byte>, b: seq<byte>)
    requires Encode(a) == Encode(b)
    ensures a == b
  {
    DecodeEncode(a);
    DecodeEncode(b);
  }
}
