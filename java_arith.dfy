/**
 * The few Java numeric rules the speed sampler depends on: the range of
 * `int`, wrapping `int` addition, the narrowing cast from `double` to `int`
 * (round toward zero, saturate at the ends of the range) and `long`
 * division, which rounds toward zero rather than down.
 * Doubles are modelled as exact reals (no NaN, no infinities, no rounding).
 */
module JavaArith {

  const IntMin: int := -0x8000_0000
  const IntMax: int := 0x7fff_ffff
  const IntModulus: int := 0x1_0000_0000

  predicate IsInt(n: int) {
    IntMin <= n <= IntMax
  }

  /** Java `int` addition: the exact sum wrapped into 32-bit two's complement. */
  function AddInt(a: int, b: int): (r: int)
    requires IsInt(a) && IsInt(b)
    ensures IsInt(r)
    ensures (r - (a + b)) % IntModulus == 0
    ensures IsInt(a + b) ==> r == a + b
  {
    var s := a + b;
    if s > IntMax then s - IntModulus
    else if s < IntMin then s + IntModulus
    else s
  }

  /** The integer nearest to `x` in the direction of zero. */
  function TruncToZero(x: real): (r: int)
    ensures x >= 0.0 ==> r as real <= x < r as real + 1.0
    ensures x < 0.0 ==> r as real - 1.0 < x <= r as real
  {
    if x >= 0.0 then x.Floor else -((-x).Floor)
  }

  /** Clamps an exact integer into the `int` range, as the narrowing cast does. */
  function SaturateInt(n: int): (r: int)
    ensures IsInt(r)
    ensures IsInt(n) ==> r == n
    ensures n > IntMax ==> r == IntMax
    ensures n < IntMin ==> r == IntMin
  {
    if n > IntMax then IntMax else if n < IntMin then IntMin else n
  }

  /**
   * The cast `(int) x` of a double that is not NaN: round toward zero,
   * then saturate at the ends of the `int` range.
   */
  function DoubleToInt(x: real): (r: int)
    ensures IsInt(r)
    ensures IsInt(TruncToZero(x)) ==> r == TruncToZero(x)
    ensures x >= 0.0 && x < IntMax as real ==> r == x.Floor
    ensures x >= IntMax as real ==> r == IntMax
    ensures x <= IntMin as real ==> r == IntMin
  {
    SaturateInt(TruncToZero(x))
  }

  /** Java `long` division by a positive divisor: the quotient rounds toward zero. */
  function DivLong(a: int, d: int): (q: int)
    requires d > 0
    ensures a >= 0 ==> 0 <= a - q * d < d
    ensures a < 0 ==> -d < a - q * d <= 0
  {
    if a >= 0 then a / d else -((-a) / d)
  }

  /** For the non-negative totals a sampler normally holds, Java's quotient is floor division. */
  lemma DivLongOfNonNegative(a: int, d: int)
    requires a >= 0 && d > 0
    ensures DivLong(a, d) == a / d
  {
  }
}
