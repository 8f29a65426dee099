/** Fixed-width integers of the C++ source and its narrowing conversions. */
module MachineInts {

  const TWO_8: int := 0x100
  const TWO_16: int := 0x1_0000
  const TWO_32: int := 0x1_0000_0000
  const TWO_64: int := 0x1_0000_0000_0000_0000

  /**
   * `max_size()` of a std::vector on a 64-bit target, PTRDIFF_MAX / sizeof(T), for elements
   * of one and of two bytes: `resize` and the sized constructor throw std::length_error above it.
   */
  const VECTOR_MAX_1: int := 0x7FFF_FFFF_FFFF_FFFF
  const VECTOR_MAX_2: int := 0x3FFF_FFFF_FFFF_FFFF

  type u8 = x: int | 0 <= x < 0x100
  type u16 = x: int | 0 <= x < 0x1_0000
  type u32 = x: int | 0 <= x < 0x1_0000_0000
  type u64 = x: int | 0 <= x < 0x1_0000_0000_0000_0000
  type i16 = x: int | -0x8000 <= x < 0x8000
  type i32 = x: int | -0x8000_0000 <= x < 0x8000_0000

  /** The conversion `(int16_t)v`: reduction modulo 2^16 into the signed range. */
  function ToI16(v: int): (r: i16)
    ensures (r - v) % TWO_16 == 0
    ensures -0x8000 <= v < 0x8000 ==> r == v
  {
    var m := v % TWO_16;
    if m < 0x8000 then m else m - TWO_16
  }

  /** n zeros: what a freshly resized buffer holds. */
  function Zeros(n: nat): (z: seq<int>)
    ensures |z| == n && forall i :: 0 <= i < n ==> z[i] == 0
  {
    seq(n, _ => 0)
  }

  /** The conversion `(uint8_t)v`: reduction modulo 2^8. */
  function ToU8(v: int): (r: u8)
    ensures (r - v) % TWO_8 == 0
    ensures 0 <= v < TWO_8 ==> r == v
  {
    v % TWO_8
  }

  /** The conversion `(uint16_t)v`: reduction modulo 2^16. */
  function ToU16(v: int): (r: u16)
    ensures (r - v) % TWO_16 == 0
    ensures 0 <= v < TWO_16 ==> r == v
  {
    v % TWO_16
  }

  /** The conversion `(uint32_t)v`, and every wrapping uint32 operation: reduction modulo 2^32. */
  function ToU32(v: int): (r: u32)
    ensures (r - v) % TWO_32 == 0
    ensures 0 <= v < TWO_32 ==> r == v
  {
    v % TWO_32
  }

  /** Two values congruent modulo 2^16 have the same int16 image. */
  lemma ToI16Congruent(u: int, v: int)
    requires (u - v) % TWO_16 == 0
    ensures ToI16(u) == ToI16(v)
  {
    var k := (u - v) / TWO_16;
    assert u == v + k * TWO_16;
    assert u % TWO_16 == v % TWO_16 by {
      assert (v + k * TWO_16) % TWO_16 == v % TWO_16;
    }
  }

  /**
   * Storing `pred + (int16_t)(actual - pred)` back into an int16 recovers `actual`,
   * whatever the prediction: the two wrapping casts cancel modulo 2^16.
   */
  lemma WrapCancels(actual: i16, pred: int)
    ensures ToI16(pred + ToI16(actual - pred)) == actual
  {
    var r := ToI16(actual - pred);
    assert ((pred + r) - actual) % TWO_16 == (r - (actual - pred)) % TWO_16;
    ToI16Congruent(pred + r, actual);
  }

  /** Division bounds from multiplication bounds. */
  lemma DivBelow(n: int, d: int, k: int)
    requires d > 0 && 0 <= n < d * k
    ensures n / d < k
  {
    var q := n / d;
    assert d * q <= n by { assert n == d * q + n % d; }
    assert d * q < d * k;
    assert d * (k - q) > 0;
  }

  lemma DivAtLeast(n: int, d: int, k: int)
    requires d > 0 && d * k <= n
    ensures n / d >= k
  {
    var q, r := n / d, n % d;
    assert n == d * q + r && 0 <= r < d;
    assert d * q > d * k - d;
    assert d * (q - k + 1) > 0;
  }
}
