/**
 * Bytes as the unmanaged table buffer holds them, and the fixed-width
 * integers that Marshal.PtrToStructure reads out of them on a
 * little-endian machine.
 */
module Bytes {

  type byte = b: int | 0 <= b < 256

  const TwoTo8: int := 0x100
  const TwoTo16: int := 0x1_0000
  const TwoTo24: int := 0x100_0000
  const TwoTo31: int := 0x8000_0000
  const TwoTo32: int := 0x1_0000_0000

  type uint16 = x: int | 0 <= x < 0x1_0000
  type uint32 = x: int | 0 <= x < 0x1_0000_0000
  type int32 = x: int | -0x8000_0000 <= x < 0x8000_0000

  /** The unsigned 32-bit value stored little-endian in `b[off..off+4]` (a C# `uint` field). */
  function UInt32At(b: seq<byte>, off: nat): uint32
    requires off + 4 <= |b|
  {
    b[off] + TwoTo8 * b[off + 1] + TwoTo16 * b[off + 2] + TwoTo24 * b[off + 3]
  }

  /** The first byte is the least significant, the last the most significant. */
  lemma UInt32AtBytes(b: seq<byte>, off: nat)
    requires off + 4 <= |b|
    ensures UInt32At(b, off) % TwoTo8 == b[off]
    ensures UInt32At(b, off) / TwoTo24 == b[off + 3]
  {
  }

  /** The signed 32-bit value stored little-endian, two's complement, in `b[off..off+4]` (a C# `int`). */
  function Int32At(b: seq<byte>, off: nat): int32
    requires off + 4 <= |b|
  {
    var u := UInt32At(b, off);
    if u < TwoTo31 then u else u - TwoTo32
  }

  /** The sign is the top bit of the last byte, and the value agrees with the unsigned reading modulo 2^32. */
  lemma Int32AtSign(b: seq<byte>, off: nat)
    requires off + 4 <= |b|
    ensures Int32At(b, off) < 0 <==> b[off + 3] >= 0x80
    ensures Int32At(b, off) % TwoTo32 == UInt32At(b, off)
  {
  }

  /** The four little-endian bytes of an unsigned 32-bit value. */
  function UInt32Bytes(v: uint32): (b: seq<byte>)
    ensures |b| == 4
  {
    [v % TwoTo8, (v / TwoTo8) % TwoTo8, (v / TwoTo16) % TwoTo8, v / TwoTo24]
  }

  /** The four little-endian two's-complement bytes of a signed 32-bit value. */
  function Int32Bytes(v: int32): (b: seq<byte>)
    ensures |b| == 4
  {
    UInt32Bytes(if v < 0 then v + TwoTo32 else v)
  }

  /** Reading back the bytes of `v` gives `v`. */
  lemma UInt32RoundTrip(v: uint32)
    ensures UInt32At(UInt32Bytes(v), 0) == v
  {
    var b := UInt32Bytes(v);
    var q1 := v / TwoTo8;
    var q2 := v / TwoTo16;
    assert v == b[0] + TwoTo8 * q1;
    assert q1 == b[1] + TwoTo8 * q2 by {
      assert q2 == q1 / TwoTo8;
    }
    assert q2 == b[2] + TwoTo8 * b[3] by {
      assert b[3] == q2 / TwoTo8;
    }
  }

  /** Writing out the value read from four bytes reproduces those bytes. */
  lemma UInt32BytesOfRead(b: seq<byte>, off: nat)
    requires off + 4 <= |b|
    ensures UInt32Bytes(UInt32At(b, off)) == b[off..off + 4]
  {
    var v := UInt32At(b, off);
    var r := UInt32Bytes(v);
    assert v / TwoTo8 == b[off + 1] + TwoTo8 * b[off + 2] + TwoTo16 * b[off + 3];
    assert v / TwoTo16 == b[off + 2] + TwoTo8 * b[off + 3];
    assert r == b[off..off + 4];
  }

  /** Reading back the bytes of a signed value gives that value. */
  lemma Int32RoundTrip(v: int32)
    ensures Int32At(Int32Bytes(v), 0) == v
  {
    UInt32RoundTrip(if v < 0 then v + TwoTo32 else v);
  }

  /** Reading any four bytes as a signed value and writing it out reproduces those bytes. */
  lemma Int32BytesOfRead(b: seq<byte>, off: nat)
    requires off + 4 <= |b|
    ensures Int32Bytes(Int32At(b, off)) == b[off..off + 4]
  {
    UInt32BytesOfRead(b, off);
  }
}
