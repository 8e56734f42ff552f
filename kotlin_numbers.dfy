/**
 * The Kotlin/JVM integer types the timer state is stored in, and the two
 * conversions the handlers apply: Long addition that wraps around at 64
 * bits, division that truncates toward zero, and `Long.toInt()`, which keeps
 * the low 32 bits.
 */
module KotlinNumbers {

  const MIN_LONG: int := -0x8000_0000_0000_0000
  const MAX_LONG: int := 0x7fff_ffff_ffff_ffff
  const LONG_RANGE: int := 0x1_0000_0000_0000_0000

  const MIN_INT: int := -0x8000_0000
  const MAX_INT: int := 0x7fff_ffff
  const INT_RANGE: int := 0x1_0000_0000

  /** A Kotlin `Long`: a 64-bit two's complement integer. */
  type Long = x: int | MIN_LONG <= x <= MAX_LONG

  /** A Kotlin `Int`: a 32-bit two's complement integer. */
  type Int32 = x: int | MIN_INT <= x <= MAX_INT

  /** The Long that the JVM produces for the mathematical value `x`. */
  function WrapLong(x: int): (r: Long)
    ensures MIN_LONG <= x <= MAX_LONG ==> r == x
    ensures (r - x) % LONG_RANGE == 0
  {
    var m := x % LONG_RANGE;
    if m <= MAX_LONG then m else m - LONG_RANGE
  }

  /** `Long.toInt()`: keeps the low 32 bits, read as two's complement. */
  function ToInt32(x: int): (r: Int32)
    ensures MIN_INT <= x <= MAX_INT ==> r == x
    ensures (r - x) % INT_RANGE == 0
  {
    var m := x % INT_RANGE;
    if m <= MAX_INT then m else m - INT_RANGE
  }

  /** JVM integer division, which rounds toward zero (Dafny's `/` is Euclidean). */
  function TruncDiv(a: int, d: int): (q: int)
    requires d > 0
    ensures 0 <= a ==> q * d <= a < q * d + d
    ensures a < 0 ==> q * d - d < a <= q * d
  {
    if a >= 0 then a / d else -((-a) / d)
  }
}
