/** Little-endian encodings of the fixed-width fields written by the container formats. */
module LittleEndian {
  import opened MachineInts

  function Pow256(n: nat): (p: nat)
    ensures p >= 1
  {
    if n == 0 then 1 else 256 * Pow256(n - 1)
  }

  /** The n low bytes of v, least significant first (what a little-endian host writes). */
  function LeBytes(v: nat, n: nat): (r: seq<u8>)
    ensures |r| == n
  {
    if n == 0 then [] else [v % 256] + LeBytes(v / 256, n - 1)
  }

  /** The unsigned value of bytes read least significant first. */
  function LeValue(bs: seq<u8>): (v: nat)
    ensures v < Pow256(|bs|)
  {
    if bs == [] then 0 else bs[0] + 256 * LeValue(bs[1..])
  }

  lemma {:induction false} LeRoundTrip(v: nat, n: nat)
    requires v < Pow256(n)
    ensures LeValue(LeBytes(v, n)) == v
  {
    if n > 0 {
      LeRoundTrip(v / 256, n - 1);
      assert LeBytes(v, n)[1..] == LeBytes(v / 256, n - 1);
    }
  }

  lemma Pow256Values()
    ensures Pow256(2) == TWO_16 && Pow256(4) == TWO_32 && Pow256(8) == TWO_64
  {
  }

  /** Distinct byte strings of one length have distinct little-endian values. */
  lemma {:induction false} LeInjective(a: seq<u8>, b: seq<u8>)
    requires |a| == |b| && LeValue(a) == LeValue(b)
    ensures a == b
  {
    if a != [] {
      assert a[0] == LeValue(a) % 256 && b[0] == LeValue(b) % 256;
      LeInjective(a[1..], b[1..]);
      assert a == [a[0]] + a[1..] && b == [b[0]] + b[1..];
    }
  }

  /**
   * What a stream read of n bytes at `at` leaves in a zero-initialised buffer: the bytes
   * present, then zeros where the file ended.
   */
  function ReadPadded(bs: seq<u8>, at: nat, n: nat): (r: seq<u8>)
    ensures |r| == n
    ensures at + n <= |bs| ==> r == bs[at..at + n]
  {
    if at + n <= |bs| then bs[at..at + n]
    else if at <= |bs| then bs[at..] + Zeros(at + n - |bs|)
    else Zeros(n)
  }

  /** A read from a prefix of the file is, byte by byte, at most the read from the whole file. */
  lemma ReadPaddedOfPrefix(bs: seq<u8>, k: nat, at: nat, n: nat)
    requires k <= |bs| && at + n <= |bs|
    ensures forall i :: 0 <= i < n ==> ReadPadded(bs[..k], at, n)[i] <= bs[at + i]
  {
    var t := bs[..k];
    forall i | 0 <= i < n
      ensures ReadPadded(t, at, n)[i] <= bs[at + i]
    {
      if at + n <= k {
        assert ReadPadded(t, at, n)[i] == t[at + i];
      } else if at <= k {
        if at + i < k {
          assert ReadPadded(t, at, n)[i] == t[at..][i];
        }
      }
    }
  }

  /** Bytes that are each no larger give a no larger little-endian value. */
  lemma {:induction false} LeMonotone(a: seq<u8>, b: seq<u8>)
    requires |a| == |b| && forall i :: 0 <= i < |a| ==> b[i] <= a[i]
    ensures LeValue(b) <= LeValue(a)
  {
    if a != [] {
      LeMonotone(a[1..], b[1..]);
    }
  }

  // ---------- scalar fields ----------

  function U16Bytes(v: u16): seq<u8> { LeBytes(v, 2) }
  function U32Bytes(v: u32): seq<u8> { LeBytes(v, 4) }
  function U64Bytes(v: u64): seq<u8> { LeBytes(v, 8) }

  /** Two's-complement bytes of an int16_t. */
  function I16Bytes(v: i16): seq<u8> { LeBytes(if v < 0 then v + TWO_16 else v, 2) }

  /** Two's-complement bytes of an int32_t. */
  function I32Bytes(v: i32): seq<u8> { LeBytes(if v < 0 then v + TWO_32 else v, 4) }

  function U16Of(bs: seq<u8>): (v: u16)
    requires |bs| == 2
  {
    Pow256Values();
    LeValue(bs)
  }

  function U32Of(bs: seq<u8>): (v: u32)
    requires |bs| == 4
  {
    Pow256Values();
    LeValue(bs)
  }

  function U64Of(bs: seq<u8>): (v: u64)
    requires |bs| == 8
  {
    Pow256Values();
    LeValue(bs)
  }

  function I16Of(bs: seq<u8>): (v: i16)
    requires |bs| == 2
  {
    var u := U16Of(bs);
    if u >= 0x8000 then u - TWO_16 else u
  }

  function I32Of(bs: seq<u8>): (v: i32)
    requires |bs| == 4
  {
    var u := U32Of(bs);
    if u >= 0x8000_0000 then u - TWO_32 else u
  }

  lemma U16RoundTrip(v: u16) ensures U16Of(U16Bytes(v)) == v { Pow256Values(); LeRoundTrip(v, 2); }
  lemma U32RoundTrip(v: u32) ensures U32Of(U32Bytes(v)) == v { Pow256Values(); LeRoundTrip(v, 4); }
  lemma U64RoundTrip(v: u64) ensures U64Of(U64Bytes(v)) == v { Pow256Values(); LeRoundTrip(v, 8); }

  lemma I16RoundTrip(v: i16) ensures I16Of(I16Bytes(v)) == v
  {
    Pow256Values();
    LeRoundTrip(if v < 0 then v + TWO_16 else v, 2);
  }

  lemma I32RoundTrip(v: i32) ensures I32Of(I32Bytes(v)) == v
  {
    Pow256Values();
    LeRoundTrip(if v < 0 then v + TWO_32 else v, 4);
  }

  // ---------- arrays of 16-bit values ----------

  function U16sBytes(vs: seq<u16>): (r: seq<u8>)
    ensures |r| == 2 * |vs|
  {
    if vs == [] then [] else U16Bytes(vs[0]) + U16sBytes(vs[1..])
  }

  function I16sBytes(vs: seq<i16>): (r: seq<u8>)
    ensures |r| == 2 * |vs|
  {
    if vs == [] then [] else I16Bytes(vs[0]) + I16sBytes(vs[1..])
  }

  function U16sOf(bs: seq<u8>): (vs: seq<u16>)
    requires |bs| % 2 == 0
    ensures |vs| == |bs| / 2
  {
    if bs == [] then [] else [U16Of(bs[..2])] + U16sOf(bs[2..])
  }

  function I16sOf(bs: seq<u8>): (vs: seq<i16>)
    requires |bs| % 2 == 0
    ensures |vs| == |bs| / 2
  {
    if bs == [] then [] else [I16Of(bs[..2])] + I16sOf(bs[2..])
  }

  lemma {:induction false} U16sRoundTrip(vs: seq<u16>)
    ensures U16sOf(U16sBytes(vs)) == vs
  {
    if vs != [] {
      var bs := U16sBytes(vs);
      assert bs[..2] == U16Bytes(vs[0]);
      assert bs[2..] == U16sBytes(vs[1..]);
      U16RoundTrip(vs[0]);
      U16sRoundTrip(vs[1..]);
    }
  }

  lemma {:induction false} I16sRoundTrip(vs: seq<i16>)
    ensures I16sOf(I16sBytes(vs)) == vs
  {
    if vs != [] {
      var bs := I16sBytes(vs);
      assert bs[..2] == I16Bytes(vs[0]);
      assert bs[2..] == I16sBytes(vs[1..]);
      I16RoundTrip(vs[0]);
      I16sRoundTrip(vs[1..]);
    }
  }
}
