/**
 * Percentages. The source computes them as floating-point quotients
 * ((part / whole) * 100); the model keeps the exact fraction 100 * part / whole.
 */
module Percent {
  /** The percentage num / den. */
  datatype Percent = Percent(num: int, den: int) {
    /** A well-formed percentage between 0 and 100. */
    predicate InRange() {
      den > 0 && 0 <= num <= 100 * den
    }

    /** The percentage is exactly 100. */
    predicate IsHundred() {
      den > 0 && num == 100 * den
    }
  }

  const Zero := Percent(0, 1)
  const Hundred := Percent(100, 1)

  /** (part / whole) * 100, for a non-zero whole. */
  function Of(part: int, whole: int): (p: Percent)
    requires whole > 0
    ensures p.den == whole && p.num == 100 * part
  {
    Percent(100 * part, whole)
  }
}
