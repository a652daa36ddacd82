/**
 * The fixed-width integers of the Kotlin/JVM runtime, as ranges of Dafny's
 * unbounded `int`, with the two's-complement operations the model needs.
 */
module KotlinNumbers {

  const LongModulus: int := 0x1_0000_0000_0000_0000
  const MinLong: int := -0x8000_0000_0000_0000
  const MaxLong: int := 0x7FFF_FFFF_FFFF_FFFF

  const IntModulus: int := 0x1_0000_0000
  const MinInt: int := -0x8000_0000
  const MaxInt: int := 0x7FFF_FFFF

  /** A Kotlin `Long` (64-bit signed). */
  type Long = x: int | MinLong <= x <= MaxLong

  /** A Kotlin `Int` (32-bit signed). */
  type Int = x: int | MinInt <= x <= MaxInt

  /**
   * Kotlin `a - b` on `Long`: the mathematical difference reduced modulo 2^64
   * into the signed range, so an overflowing difference wraps around.
   */
  function LongSub(a: Long, b: Long): (r: Long)
    ensures (r - (a - b)) % LongModulus == 0
    ensures MinLong <= a - b <= MaxLong ==> r == a - b
    ensures a - b > MaxLong ==> r < 0
    ensures a - b < MinLong ==> r >= 0
  {
    var d := a - b;
    if d > MaxLong then d - LongModulus
    else if d < MinLong then d + LongModulus
    else d
  }

  /** Kotlin `Long.toInt()`: keeps the low 32 bits as a signed `Int`. */
  function LongToInt(x: Long): (r: Int)
    ensures (r - x) % IntModulus == 0
    ensures MinInt <= x <= MaxInt ==> r == x
  {
    var low := x % IntModulus;
    if low > MaxInt then low - IntModulus else low
  }
}
