/**
 * Fixed-width integers of the toolkit's wire formats and geometry, as subset
 * types of the unbounded `int`, with explicit wrap-around for the places where
 * the C++ code stores a wider intermediate into a narrow field, and the
 * little-endian byte layouts the drawlist codec uses.
 */
module Ints {

  type byte = x: int | 0 <= x < 0x100
  type u16 = x: int | 0 <= x < 0x1_0000
  type i16 = x: int | -0x8000 <= x < 0x8000
  type u32 = x: int | 0 <= x < 0x1_0000_0000

  const U16_MAX: int := 0xFFFF

  /** Storing an int into a `uint16_t` keeps it modulo 2^16. */
  function WrapU16(x: int): (r: u16)
    ensures 0 <= x < 0x1_0000 ==> r == x
    ensures (r - x) % 0x1_0000 == 0
  {
    x % 0x1_0000
  }

  /** Storing an int into an `int16_t` keeps it modulo 2^16, in two's complement. */
  function WrapI16(x: int): (r: i16)
    ensures -0x8000 <= x < 0x8000 ==> r == x
    ensures (r - x) % 0x1_0000 == 0
  {
    var m := x % 0x1_0000;
    if m < 0x8000 then m else m - 0x1_0000
  }

  /** Storing an int into a `uint32_t` keeps it modulo 2^32. */
  function WrapU32(x: int): (r: u32)
    ensures 0 <= x < 0x1_0000_0000 ==> r == x
  {
    x % 0x1_0000_0000
  }

  /** Two values congruent modulo 2^16 wrap to the same `int16_t`. */
  lemma WrapI16Congruent(a: int, b: int)
    requires (a - b) % 0x1_0000 == 0
    ensures WrapI16(a) == WrapI16(b)
  {
    var k := (a - b) / 0x1_0000;
    assert a == b + k * 0x1_0000;
    assert a % 0x1_0000 == b % 0x1_0000;
  }

  // Little-endian layouts

  function U16Bytes(v: u16): (r: seq<byte>)
    ensures |r| == 2
  {
    [v % 0x100, v / 0x100]
  }

  function U32Bytes(v: u32): (r: seq<byte>)
    ensures |r| == 4
  {
    U16Bytes(v % 0x1_0000) + U16Bytes(v / 0x1_0000)
  }

  /** An `int16_t` is laid out as its two's-complement `uint16_t`. */
  function I16Bytes(v: i16): (r: seq<byte>)
    ensures |r| == 2
  {
    U16Bytes(WrapU16(v))
  }

  function U16At(s: seq<byte>, i: nat): u16
    requires i + 2 <= |s|
  {
    s[i] as int + 0x100 * (s[i + 1] as int)
  }

  function U32At(s: seq<byte>, i: nat): u32
    requires i + 4 <= |s|
  {
    U16At(s, i) as int + 0x1_0000 * (U16At(s, i + 2) as int)
  }

  function I16At(s: seq<byte>, i: nat): i16
    requires i + 2 <= |s|
  {
    WrapI16(U16At(s, i))
  }

  lemma U16RoundTrip(v: u16, pre: seq<byte>, post: seq<byte>)
    ensures U16At(pre + U16Bytes(v) + post, |pre|) == v
  {
    var s := pre + U16Bytes(v) + post;
    assert s[|pre|] == v % 0x100 && s[|pre| + 1] == v / 0x100;
  }

  lemma U32RoundTrip(v: u32, pre: seq<byte>, post: seq<byte>)
    ensures U32At(pre + U32Bytes(v) + post, |pre|) == v
  {
    var lo := U16Bytes(v % 0x1_0000);
    var hi := U16Bytes(v / 0x1_0000);
    assert pre + U32Bytes(v) + post == pre + lo + (hi + post);
    U16RoundTrip(v % 0x1_0000, pre, hi + post);
    assert pre + U32Bytes(v) + post == (pre + lo) + hi + post;
    U16RoundTrip(v / 0x1_0000, pre + lo, post);
  }

  lemma I16RoundTrip(v: i16, pre: seq<byte>, post: seq<byte>)
    ensures I16At(pre + I16Bytes(v) + post, |pre|) == v
  {
    U16RoundTrip(WrapU16(v), pre, post);
    WrapI16Congruent(WrapU16(v), v);
  }

  function Min(a: int, b: int): (r: int)
    ensures r <= a && r <= b && (r == a || r == b)
  {
    if a < b then a else b
  }

  function Max(a: int, b: int): (r: int)
    ensures r >= a && r >= b && (r == a || r == b)
  {
    if a < b then b else a
  }

  /** The bytes of an ASCII literal. */
  function AsciiBytes(s: string): (b: seq<byte>)
    requires forall i :: 0 <= i < |s| ==> s[i] as int < 0x80
    ensures |b| == |s| && forall i :: 0 <= i < |s| ==> b[i] == s[i] as int
  {
    seq(|s|, i requires 0 <= i < |s| => s[i] as int)
  }
}
