/** lib/math_utils.c: minima in which a negative number stands for infinity. */
module MathUtils {
  /** `x` is allowed by limit `lim`; a negative limit allows everything. */
  predicate Within(x: nat, lim: int) {
    lim < 0 || x <= lim
  }

  function OptMin(a: int, b: int): int {
    if a < 0 && b < 0 then -1
    else if a < 0 then b
    else if b < 0 then a
    else if a < b then a else b
  }

  /** The minimum allows exactly what both limits allow, and introduces no limit of its own. */
  lemma OptMinIsMeet(a: int, b: int, x: nat)
    ensures Within(x, OptMin(a, b)) <==> Within(x, a) && Within(x, b)
    ensures OptMin(a, b) < 0 <==> a < 0 && b < 0
  {
  }
}
