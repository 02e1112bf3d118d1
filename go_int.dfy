/**
  Go's `int` on a 64-bit platform: a two's-complement 64-bit integer whose
  addition wraps around.
 */
module GoInt {

  const MinInt64: int := -0x8000_0000_0000_0000
  const MaxInt64: int := 0x7FFF_FFFF_FFFF_FFFF

  type Int64 = x: int | MinInt64 <= x <= MaxInt64

  /** Reduces a mathematical integer to the 64-bit value Go would hold. */
  function Wrap(x: int): (r: Int64)
    ensures (r - x) % 0x1_0000_0000_0000_0000 == 0
    ensures MinInt64 <= x <= MaxInt64 ==> r == x
  {
    (x - MinInt64) % 0x1_0000_0000_0000_0000 + MinInt64
  }

  /** Go's `a + b` on `int`. */
  function Add(a: Int64, b: Int64): (r: Int64)
    ensures MinInt64 <= a + b <= MaxInt64 ==> r == a + b
    ensures a + b > MaxInt64 ==> r == a + b - 0x1_0000_0000_0000_0000
    ensures a + b < MinInt64 ==> r == a + b + 0x1_0000_0000_0000_0000
  {
    Wrap(a + b)
  }
}
