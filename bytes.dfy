/** Bytes and the one sample encoding the decoder reads: a signed 16-bit
    integer stored low byte first (struct format "h" on a little-endian host). */
module Bytes {

  type Byte = b: int | 0 <= b < 256

  /** The value of the two bytes lo, hi read as a two's-complement 16-bit integer. */
  function Int16LE(lo: Byte, hi: Byte): (v: int)
    ensures -32768 <= v < 32768
    ensures (v - lo - 256 * hi) % 65536 == 0
  {
    var u := lo + 256 * hi;
    if u < 32768 then u else u - 65536
  }

  /** The two bytes, low byte first, that store the 16-bit value v. */
  function Int16Bytes(v: int): (b: seq<Byte>)
    requires -32768 <= v < 32768
    ensures |b| == 2
  {
    var u := if v < 0 then v + 65536 else v;
    [u % 256, u / 256]
  }

  lemma Int16RoundTrip(v: int)
    requires -32768 <= v < 32768
    ensures Int16LE(Int16Bytes(v)[0], Int16Bytes(v)[1]) == v
  {
  }

  lemma Int16BytesRoundTrip(lo: Byte, hi: Byte)
    ensures Int16Bytes(Int16LE(lo, hi)) == [lo, hi]
  {
  }

  /** A whole lead buffer: each value stored as two bytes, in order. */
  function Int16Buffer(vs: seq<int>): (b: seq<Byte>)
    requires forall i :: 0 <= i < |vs| ==> -32768 <= vs[i] < 32768
    ensures |b| == 2 * |vs|
  {
    if vs == [] then [] else Int16Bytes(vs[0]) + Int16Buffer(vs[1..])
  }

  /** Sample t of a buffer built by Int16Buffer is the t-th value again. */
  lemma {:induction false} Int16BufferAt(vs: seq<int>, t: nat)
    requires forall i :: 0 <= i < |vs| ==> -32768 <= vs[i] < 32768
    requires t < |vs|
    ensures Int16LE(Int16Buffer(vs)[2 * t], Int16Buffer(vs)[2 * t + 1]) == vs[t]
  {
    var b := Int16Buffer(vs);
    assert b == Int16Bytes(vs[0]) + Int16Buffer(vs[1..]);
    if t == 0 {
      Int16RoundTrip(vs[0]);
    } else {
      Int16BufferAt(vs[1..], t - 1);
      assert b[2 * t] == Int16Buffer(vs[1..])[2 * (t - 1)];
      assert b[2 * t + 1] == Int16Buffer(vs[1..])[2 * (t - 1) + 1];
    }
  }
}
