/** Bytes and the little-endian integer fields of the on-disk header. */
module Bytes {
  /** An unsigned 8-bit value (C's BYTE / unsigned char). */
  type byte = x: int | 0 <= x < 256

  const TWO_16: int := 0x1_0000
  const TWO_31: int := 0x8000_0000
  const TWO_32: int := 0x1_0000_0000

  /** A WORD stored little-endian at `at`. */
  function U16(b: seq<byte>, at: nat): (v: nat)
    requires at + 2 <= |b|
    ensures v < TWO_16
  {
    b[at] as int + 256 * b[at + 1] as int
  }

  /** A DWORD stored little-endian at `at`. */
  function U32(b: seq<byte>, at: nat): (v: nat)
    requires at + 4 <= |b|
    ensures v < TWO_32
  {
    b[at] as int + 256 * b[at + 1] as int + 65536 * b[at + 2] as int + 16777216 * b[at + 3] as int
  }

  /** A LONG (two's-complement int32) stored little-endian at `at`. */
  function I32(b: seq<byte>, at: nat): (v: int)
    requires at + 4 <= |b|
    ensures -TWO_31 <= v < TWO_31
  {
    ToInt32(U32(b, at))
  }

  /** The int32 whose bit pattern is the uint32 `u`: the C conversion (LONG)u. */
  function ToInt32(u: nat): (v: int)
    requires u < TWO_32
    ensures -TWO_31 <= v < TWO_31
    ensures (v - u) % TWO_32 == 0
  {
    if u < TWO_31 then u else u - TWO_32
  }

  function LE16(v: nat): (b: seq<byte>)
    requires v < TWO_16
    ensures |b| == 2 && U16(b, 0) == v
  {
    [v % 256, v / 256]
  }

  function LE32(v: nat): (b: seq<byte>)
    requires v < TWO_32
    ensures |b| == 4 && U32(b, 0) == v
  {
    var q1 := v / 256;
    var q2 := q1 / 256;
    var q3 := q2 / 256;
    assert v == 256 * q1 + v % 256 && q1 < TWO_16 * 256;
    assert q1 == 256 * q2 + q1 % 256 && q2 < TWO_16;
    assert q2 == 256 * q3 + q2 % 256 && q3 < 256;
    [v % 256, q1 % 256, q2 % 256, q3]
  }

  /** The four bytes of a signed int32; inverse of I32. */
  function LE32Signed(v: int): (b: seq<byte>)
    requires -TWO_31 <= v < TWO_31
    ensures |b| == 4 && I32(b, 0) == v
  {
    LE32(if v < 0 then v + TWO_32 else v)
  }

  /** Bytes and characters are the same 8-bit units on a stream. */
  function AsChars(b: seq<byte>): (t: seq<char>)
    ensures |t| == |b|
    ensures forall k | 0 <= k < |b| :: t[k] as int == b[k]
  {
    seq(|b|, k requires 0 <= k < |b| => b[k] as char)
  }

  predicate IsOctetText(t: seq<char>)
  {
    forall k | 0 <= k < |t| :: t[k] as int < 256
  }

  function AsBytes(t: seq<char>): (b: seq<byte>)
    requires IsOctetText(t)
    ensures |b| == |t|
    ensures forall k | 0 <= k < |t| :: b[k] == t[k] as int
  {
    seq(|t|, k requires 0 <= k < |t| => t[k] as int)
  }

  lemma CharsOfBytes(t: seq<char>)
    requires IsOctetText(t)
    ensures AsChars(AsBytes(t)) == t
  {
  }

  /** Euclidean division recovers the two parts of q * m + a. */
  lemma DivModParts(q: int, m: int, a: int)
    requires m > 0 && 0 <= a < m
    ensures (q * m + a) / m == q && (q * m + a) % m == a
  {
    var d, r := (q * m + a) / m, (q * m + a) % m;
    assert (d - q) * m == a - r;
    if d < q {
      MulAtLeast(q - d, m);
    } else if d > q {
      MulAtLeast(d - q, m);
    }
  }

  lemma MulAtLeast(e: int, m: int)
    requires e >= 1 && m > 0
    ensures e * m >= m
  {
    assert e * m == (e - 1) * m + m;
  }

  lemma BytesOfLE32(b: seq<byte>, at: nat)
    requires at + 4 <= |b|
    ensures LE32(U32(b, at)) == b[at..at + 4]
  {
    var b0, b1, b2, b3 := b[at] as int, b[at + 1] as int, b[at + 2] as int, b[at + 3] as int;
    var v := U32(b, at);
    var v1 := b1 + 256 * b2 + 65536 * b3;
    var v2 := b2 + 256 * b3;
    assert v == v1 * 256 + b0;
    DivModParts(v1, 256, b0);
    assert v1 == v2 * 256 + b1;
    DivModParts(v2, 256, b1);
    DivModParts(b3, 256, b2);
  }

  lemma BytesOfLE16(b: seq<byte>, at: nat)
    requires at + 2 <= |b|
    ensures LE16(U16(b, at)) == b[at..at + 2]
  {
  }

  lemma BytesOfLE32Signed(b: seq<byte>, at: nat)
    requires at + 4 <= |b|
    ensures LE32Signed(I32(b, at)) == b[at..at + 4]
  {
    BytesOfLE32(b, at);
  }
}
