/**
  * Bytes and fixed-width integers.
  *
  * The engine stores its on-disk structures as packed little-endian 32-bit and
  * 16-bit fields. Integers here are unbounded, so every truncation the C code
  * performs is written out with `U32`, `U16` and `Int32`.
  */
module Bytes {

  newtype byte = x: int | 0 <= x < 0x100

  const U16_LIMIT: int := 0x1_0000
  const U32_LIMIT: int := 0x1_0000_0000

  type u16 = x: int | 0 <= x < U16_LIMIT
  type u32 = x: int | 0 <= x < U32_LIMIT

  /** Conversion of any integer to `uint16_t` (modulo 2^16). */
  function U16(x: int): (r: u16)
    ensures 0 <= x < U16_LIMIT ==> r == x
    ensures (r - x) % U16_LIMIT == 0
  {
    x % U16_LIMIT
  }

  /** Conversion of any integer to `uint32_t` (modulo 2^32). */
  function U32(x: int): (r: u32)
    ensures 0 <= x < U32_LIMIT ==> r == x
    ensures (r - x) % U32_LIMIT == 0
  {
    x % U32_LIMIT
  }

  /** Two's-complement reading of a 32-bit pattern as a signed `int`. */
  function Int32(x: u32): (r: int)
    ensures -0x8000_0000 <= r < 0x8000_0000
    ensures U32(r) == x
  {
    if x < 0x8000_0000 then x else x - U32_LIMIT
  }

  /** Signed 32-bit wrap-around of an integer result, as a two's-complement machine computes it. */
  function WrapInt32(x: int): (r: int)
    ensures -0x8000_0000 <= r < 0x8000_0000
    ensures (r - x) % U32_LIMIT == 0
  {
    Int32(U32(x))
  }

  function EncodeU16(x: u16): (b: seq<byte>)
    ensures |b| == 2
  {
    [(x % 0x100) as byte, (x / 0x100) as byte]
  }

  function DecodeU16(b: seq<byte>): (x: u16)
    requires |b| == 2
  {
    b[0] as int + 0x100 * b[1] as int
  }

  function EncodeU32(x: u32): (b: seq<byte>)
    ensures |b| == 4
  {
    [(x % 0x100) as byte, ((x / 0x100) % 0x100) as byte,
     ((x / 0x1_0000) % 0x100) as byte, (x / 0x100_0000) as byte]
  }

  function DecodeU32(b: seq<byte>): (x: u32)
    requires |b| == 4
  {
    b[0] as int + 0x100 * b[1] as int + 0x1_0000 * b[2] as int + 0x100_0000 * b[3] as int
  }

  lemma DecodeEncodeU16(x: u16)
    ensures DecodeU16(EncodeU16(x)) == x
  {
  }

  lemma EncodeDecodeU16(b: seq<byte>)
    requires |b| == 2
    ensures EncodeU16(DecodeU16(b)) == b
  {
  }

  /** Reading back a written 32-bit field yields the value written. */
  lemma DecodeEncodeU32(x: u32)
    ensures DecodeU32(EncodeU32(x)) == x
  {
    var b0, b1, b2, b3 := x % 0x100, (x / 0x100) % 0x100, (x / 0x1_0000) % 0x100, x / 0x100_0000;
    assert x / 0x100 == b1 + 0x100 * (x / 0x1_0000);
    assert x / 0x1_0000 == b2 + 0x100 * b3;
  }

  /** Every four bytes are the encoding of exactly one 32-bit value. */
  lemma EncodeDecodeU32(b: seq<byte>)
    requires |b| == 4
    ensures EncodeU32(DecodeU32(b)) == b
  {
    var b0, b1, b2, b3 := b[0] as int, b[1] as int, b[2] as int, b[3] as int;
    var x := DecodeU32(b);
    assert x == b0 + 0x100 * (b1 + 0x100 * b2 + 0x1_0000 * b3);
    PlaceLow(b0, b1 + 0x100 * b2 + 0x1_0000 * b3);
    PlaceLow(b1, b2 + 0x100 * b3);
    assert x == (b0 + 0x100 * b1) + 0x1_0000 * (b2 + 0x100 * b3);
    PlaceMid(b0 + 0x100 * b1, b2 + 0x100 * b3);
    PlaceLow(b2, b3);
    assert x == (b0 + 0x100 * b1 + 0x1_0000 * b2) + 0x100_0000 * b3;
    PlaceHigh(b0 + 0x100 * b1 + 0x1_0000 * b2, b3);
    var e := EncodeU32(x);
    assert e[0] == b[0] && e[1] == b[1] && e[2] == b[2] && e[3] == b[3];
  }

  /** The low byte and the rest of a value laid out in base 256. */
  lemma PlaceLow(lo: int, hi: int)
    requires 0 <= lo < 0x100 && 0 <= hi
    ensures (lo + 0x100 * hi) % 0x100 == lo && (lo + 0x100 * hi) / 0x100 == hi
  {
  }

  lemma PlaceMid(lo: int, hi: int)
    requires 0 <= lo < 0x1_0000 && 0 <= hi
    ensures (lo + 0x1_0000 * hi) / 0x1_0000 == hi
  {
  }

  lemma PlaceHigh(lo: int, hi: int)
    requires 0 <= lo < 0x100_0000 && 0 <= hi
    ensures (lo + 0x100_0000 * hi) / 0x100_0000 == hi
  {
  }

  /** Concatenation of the little-endian encodings of a sequence of 32-bit fields. */
  function EncodeU32s(xs: seq<u32>): (b: seq<byte>)
    ensures |b| == 4 * |xs|
    ensures forall i :: 0 <= i < |xs| ==> b[4 * i .. 4 * i + 4] == EncodeU32(xs[i])
  {
    if xs == [] then [] else
      var rest := EncodeU32s(xs[1..]);
      assert forall i :: 1 <= i < |xs| ==> xs[i] == xs[1..][i - 1];
      EncodeU32(xs[0]) + rest
  }

  /** Splits a byte sequence into consecutive 32-bit little-endian fields. */
  function DecodeU32s(b: seq<byte>): (xs: seq<u32>)
    requires |b| % 4 == 0
    ensures 4 * |xs| == |b|
    ensures forall i :: 0 <= i < |xs| ==> xs[i] == DecodeU32(b[4 * i .. 4 * i + 4])
  {
    if b == [] then [] else
      var rest := DecodeU32s(b[4..]);
      assert forall i :: 1 <= i < |rest| + 1 ==> b[4..][4 * (i - 1) .. 4 * (i - 1) + 4] == b[4 * i .. 4 * i + 4];
      [DecodeU32(b[..4])] + rest
  }

  lemma DecodeEncodeU32s(xs: seq<u32>)
    ensures DecodeU32s(EncodeU32s(xs)) == xs
  {
    var b := EncodeU32s(xs);
    var ys := DecodeU32s(b);
    forall i | 0 <= i < |xs|
      ensures ys[i] == xs[i]
    {
      DecodeEncodeU32(xs[i]);
    }
  }

  lemma {:induction false} EncodeDecodeU32s(b: seq<byte>)
    requires |b| % 4 == 0
    ensures EncodeU32s(DecodeU32s(b)) == b
    decreases |b|
  {
    if b != [] {
      var xs := DecodeU32s(b);
      assert xs[1..] == DecodeU32s(b[4..]);
      EncodeDecodeU32(b[..4]);
      EncodeDecodeU32s(b[4..]);
      assert b == b[..4] + b[4..];
    }
  }
}
