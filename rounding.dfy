/** Rounding of a real to the nearest integer, midpoints away from zero. */
module Rounding {

  /**
   * Nearest integer to `r`; a value exactly half-way between two integers
   * goes to the one farther from zero (MidpointRounding.AwayFromZero).
   */
  function RoundAwayFromZero(r: real): (n: int)
    ensures r >= 0.0 ==> n as real - 0.5 <= r < n as real + 0.5
    ensures r < 0.0 ==> n as real - 0.5 < r <= n as real + 0.5
  {
    if r >= 0.0 then (r + 0.5).Floor else -((-r + 0.5).Floor)
  }

  /** The bounds of RoundAwayFromZero single out one integer. */
  lemma RoundingIsUnique(r: real, m: int)
    requires r >= 0.0 ==> m as real - 0.5 <= r < m as real + 0.5
    requires r < 0.0 ==> m as real - 0.5 < r <= m as real + 0.5
    ensures m == RoundAwayFromZero(r)
  {
  }

  /**
   * A value half-way between two integers goes to the one farther from
   * zero, on both sides of zero (not to the even one).
   */
  lemma MidpointsGoAwayFromZero(k: nat)
    ensures RoundAwayFromZero(k as real + 0.5) == k + 1
    ensures RoundAwayFromZero(-(k as real) - 0.5) == -(k as int) - 1
  {
    RoundingIsUnique(k as real + 0.5, k + 1);
    RoundingIsUnique(-(k as real) - 0.5, -(k as int) - 1);
  }

  /** Rounding an integer changes nothing. */
  lemma RoundingKeepsIntegers(k: int)
    ensures RoundAwayFromZero(k as real) == k
  {
    RoundingIsUnique(k as real, k);
  }
}
