/** Bytes and the little-endian 32-bit integers of the native file format. */
module Bytes {

  /** One 8-bit value (Uint8 in the source). */
  type Byte = x: int | 0 <= x < 256

  const TwoTo31: int := 0x8000_0000
  const TwoTo32: int := 0x1_0000_0000

  /** True when v fits a Sint32. */
  predicate IsInt32(v: int) {
    -TwoTo31 <= v < TwoTo31
  }

  /** The Sint32 that a 32-bit two's-complement computation of v leaves: v wrapped into [-2^31, 2^31). */
  function AsInt32(v: int): (r: int)
    ensures IsInt32(r) && (r - v) % TwoTo32 == 0
    ensures IsInt32(v) ==> r == v
  {
    var m := v % TwoTo32;
    if m >= TwoTo31 then m - TwoTo32 else m
  }

  /** The four bytes of an unsigned 32-bit value, least significant first. */
  function U32Bytes(v: int): (b: seq<Byte>)
    requires 0 <= v < TwoTo32
    ensures |b| == 4
  {
    [v % 256, (v / 256) % 256, (v / 65536) % 256, v / 16777216]
  }

  /** The unsigned value of four little-endian bytes. */
  function U32Of(b: seq<Byte>): (v: int)
    requires |b| == 4
    ensures 0 <= v < TwoTo32
  {
    b[0] as int + 256 * (b[1] as int) + 65536 * (b[2] as int) + 16777216 * (b[3] as int)
  }

  lemma U32RoundTrip(v: int)
    requires 0 <= v < TwoTo32
    ensures U32Of(U32Bytes(v)) == v
  {
    var q1 := v / 256;
    var q2 := q1 / 256;
    var q3 := q2 / 256;
    assert v == v % 256 + 256 * q1;
    assert q1 == q1 % 256 + 256 * q2;
    assert q2 == q2 % 256 + 256 * q3;
    assert v / 65536 == q2 && v / 16777216 == q3;
    assert U32Bytes(v) == [v % 256, q1 % 256, q2 % 256, q3];
  }

  lemma U32BytesOfValue(b: seq<Byte>)
    requires |b| == 4
    ensures U32Bytes(U32Of(b)) == b
  {
    var v := U32Of(b);
    var hi1 := b[1] as int + 256 * (b[2] as int) + 65536 * (b[3] as int);
    var hi2 := b[2] as int + 256 * (b[3] as int);
    assert v == b[0] + 256 * hi1;
    assert v % 256 == b[0] && v / 256 == hi1;
    assert hi1 == b[1] + 256 * hi2;
    assert hi1 % 256 == b[1] && hi1 / 256 == hi2;
    assert hi2 % 256 == b[2] && hi2 / 256 == b[3];
    assert v / 65536 == hi2 && v / 16777216 == b[3];
  }

  /** The bytes a Sint32 occupies in memory (two's complement, little-endian). */
  function I32Bytes(v: int): (b: seq<Byte>)
    requires IsInt32(v)
    ensures |b| == 4
  {
    U32Bytes(if v < 0 then v + TwoTo32 else v)
  }

  /** The Sint32 stored in four little-endian bytes. */
  function I32Of(b: seq<Byte>): (v: int)
    requires |b| == 4
    ensures IsInt32(v)
  {
    var u := U32Of(b);
    if u >= TwoTo31 then u - TwoTo32 else u
  }

  /** Storing a Sint32 and reading it back gives the same value. */
  lemma I32RoundTrip(v: int)
    requires IsInt32(v)
    ensures I32Of(I32Bytes(v)) == v
  {
    U32RoundTrip(if v < 0 then v + TwoTo32 else v);
  }

  /** Reading four bytes as a Sint32 and storing it again gives the same bytes. */
  lemma I32BytesOfValue(b: seq<Byte>)
    requires |b| == 4
    ensures I32Bytes(I32Of(b)) == b
  {
    U32BytesOfValue(b);
  }
}
