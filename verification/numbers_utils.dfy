/** `numbersUtils.inRange` / `numbersUtils.outRange`
    (src/core/utils/numbersUtils.ts): inclusive range tests. */
module NumbersUtils {

  /** `inRange`: the number lies between the bounds, both included. */
  predicate InRange(n: int, min: int, max: int) {
    n >= min && n <= max
  }

  /** `outRange`: the number lies below the lower or above the upper bound. */
  predicate OutRange(n: int, min: int, max: int) {
    n < min || n > max
  }

  /** `outRange` holds exactly when `inRange` does not, and `inRange` is the
      closed interval from `min` to `max`. */
  lemma OutRangeIsNotInRange(n: int, min: int, max: int)
    ensures OutRange(n, min, max) <==> !InRange(n, min, max)
    ensures InRange(n, min, max) <==> min <= n <= max
  {
  }

  /** Both ends of a non-empty range are inside it. */
  lemma EndpointsInRange(min: int, max: int)
    requires min <= max
    ensures InRange(min, min, max) && InRange(max, min, max)
    ensures !OutRange(min, min, max) && !OutRange(max, min, max)
  {
  }

  /** A range whose minimum exceeds its maximum contains nothing. */
  lemma InvertedRangeIsEmpty(n: int, min: int, max: int)
    requires min > max
    ensures !InRange(n, min, max) && OutRange(n, min, max)
  {
  }
}
