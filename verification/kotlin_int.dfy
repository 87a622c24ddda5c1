/**
 Kotlin `Int` operations the layouts rely on, written out because Dafny's
 integers are unbounded and its `/` is Euclidean.
 */
module KotlinInt {

  function Abs(x: int): int {
    if x < 0 then -x else x
  }

  /** Kotlin's `/` on `Int`: the quotient is truncated toward zero, so the
      remainder takes the sign of the dividend. */
  function Div(a: int, b: int): (q: int)
    requires b != 0
    ensures a >= 0 ==> 0 <= a - q * b < Abs(b)
    ensures a < 0 ==> -Abs(b) < a - q * b <= 0
    ensures a >= 0 && b > 0 ==> q == a / b
  {
    if b > 0 then
      (if a >= 0 then a / b else -((-a) / b))
    else
      (if a >= 0 then -(a / (-b)) else (-a) / (-b))
  }

  /** `Int.coerceAtLeast(lo)`: the least value that is at least both `x` and `lo`. */
  function CoerceAtLeast(x: int, lo: int): (r: int)
    ensures r >= x && r >= lo
    ensures r == x || r == lo
  {
    if x < lo then lo else x
  }

  /** `Int.coerceAtMost(hi)`: the greatest value that is at most both `x` and `hi`. */
  function CoerceAtMost(x: int, hi: int): (r: int)
    ensures r <= x && r <= hi
    ensures r == x || r == hi
  {
    if x > hi then hi else x
  }

  /** `Int.mod(2) == 0`: Kotlin's `mod` floors, which for a positive divisor
      agrees with Dafny's `%`. */
  predicate IsEven(x: int) {
    x % 2 == 0
  }
}
