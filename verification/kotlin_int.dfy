/** Kotlin `Int` division and remainder. Kotlin truncates the quotient toward zero, so the
    remainder takes the sign of the dividend; Dafny's `/` and `%` are Euclidean. The two
    agree exactly when the dividend is non-negative (all divisors here are positive). */
module KotlinInt {

  /** `a / b` on Kotlin `Int`, for a positive divisor. */
  function TDiv(a: int, b: int): (q: int)
    requires b > 0
    ensures a >= 0 ==> q == a / b
    ensures a < 0 ==> q <= 0 && b * q >= a && b * q - b < a
  {
    if a >= 0 then a / b else -((-a) / b)
  }

  /** `a % b` on Kotlin `Int`, for a positive divisor. */
  function TMod(a: int, b: int): (r: int)
    requires b > 0
    ensures a >= 0 ==> r == a % b
    ensures a < 0 ==> -b < r <= 0
    ensures b * TDiv(a, b) + r == a
  {
    if a >= 0 then a % b else -((-a) % b)
  }
}
