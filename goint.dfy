/**
 * Go's fixed-width integers on a 64-bit platform: `int` and `uint` are 64 bits
 * wide, and conversions between them reinterpret the bits.
 */
module GoInt {

  const TWO_63: int := 0x8000_0000_0000_0000
  const TWO_64: int := 0x1_0000_0000_0000_0000

  /** Go's `int`. */
  type Int64 = i: int | -0x8000_0000_0000_0000 <= i < 0x8000_0000_0000_0000

  /** Go's `uint`. */
  type Uint64 = n: int | 0 <= n < 0x1_0000_0000_0000_0000

  /** The `int` that a Go computation whose exact value is `x` produces (two's-complement wrap-around). */
  function WrapInt64(x: int): (r: Int64)
    ensures (x - r) % TWO_64 == 0
    ensures -TWO_63 <= x < TWO_63 ==> r == x
  {
    var y := x + TWO_63;
    assert y == TWO_64 * (y / TWO_64) + y % TWO_64;
    y % TWO_64 - TWO_63
  }

  /** Go's conversion `uint(i)`. */
  function IntToUint(i: Int64): (u: Uint64)
    ensures i >= 0 ==> u == i
    ensures i < 0 ==> u == i + TWO_64
  {
    i % TWO_64
  }

  /** Go's conversion `int(u)` of the low 64 bits of `u`. */
  function UintToInt(u: nat): (i: Int64)
    ensures u < TWO_63 ==> i == u
    ensures TWO_63 <= u < TWO_64 ==> i == u - TWO_64
  {
    assert TWO_63 <= u < TWO_64 ==> (u - TWO_64) + TWO_63 == u - TWO_63;
    WrapInt64(u)
  }

  lemma UintIntRoundTrip(u: Uint64)
    ensures IntToUint(UintToInt(u)) == u
  {
  }

  lemma IntUintRoundTrip(i: Int64)
    ensures UintToInt(IntToUint(i)) == i
  {
  }
}
