/** Completion percentages in hundredths of a percent, rounded half up. */
module Completion {

  /** The integer nearest to `a / b`, the upper one of two. */
  function RoundHalfUp(a: int, b: int): int
    requires 0 < b
  {
    (2 * a + b) / (2 * b)
  }

  /** 10000 stands for 100.00. */
  function CompletionPercentage(submitted: int, expected: int): int {
    if expected <= 0 then 0 else RoundHalfUp(10000 * submitted, expected)
  }

  lemma DivisionBounds(a: int, b: int)
    requires 0 < b
    ensures b * (a / b) <= a < b * (a / b) + b
  {
  }

  /** Rounding stays within half a unit of the ratio, and a tie goes up. */
  lemma RoundedIsNearest(a: int, b: int)
    requires 0 < b
    ensures 2 * a - b < 2 * b * RoundHalfUp(a, b) <= 2 * a + b
  {
    DivisionBounds(2 * a + b, 2 * b);
  }

  /** The nearest integer is determined by those bounds. */
  lemma RoundedIs(a: int, b: int, r: int)
    requires 0 < b
    ensures RoundHalfUp(a, b) == r <==> 2 * a - b < 2 * b * r <= 2 * a + b
  {
    RoundedIsNearest(a, b);
    MultiplesAreApart(2 * b, RoundHalfUp(a, b) - r);
  }

  lemma MultiplesAreApart(k: int, d: int)
    requires 0 < k
    ensures 1 <= d ==> k <= k * d
    ensures d <= -1 ==> k * d <= -k
  {
    if 1 <= d {
      assert 0 <= k * (d - 1);
    } else if d <= -1 {
      assert 0 <= k * (-d - 1);
    }
  }

  /** The value lies between 0 and 100.00 and never falls when another learner is submitted. */
  lemma PercentageInRangeAndMonotone(s: int, t: int, e: int)
    requires 0 <= s <= t <= e
    ensures 0 <= CompletionPercentage(s, e) <= CompletionPercentage(t, e) <= 10000
  {
    if 0 < e {
      RoundedIsNearest(10000 * s, e);
      RoundedIsNearest(10000 * t, e);
      RoundedIs(10000 * e, e, 10000);
      RoundMonotone(10000 * s, 10000 * t, e);
      RoundMonotone(0, 10000 * s, e);
      RoundMonotone(10000 * t, 10000 * e, e);
      RoundedIs(0, e, 0);
    }
  }

  lemma RoundMonotone(a: int, c: int, b: int)
    requires 0 < b && a <= c
    ensures RoundHalfUp(a, b) <= RoundHalfUp(c, b)
  {
    RoundedIsNearest(a, b);
    RoundedIsNearest(c, b);
    MultiplesAreApart(2 * b, RoundHalfUp(a, b) - RoundHalfUp(c, b));
  }

  /** It is within half a hundredth of the exact percentage. */
  lemma PercentageIsClose(s: int, e: int)
    requires 0 < e
    ensures -e < 2 * (e * CompletionPercentage(s, e) - 10000 * s) <= e
  {
    RoundedIsNearest(10000 * s, e);
  }

  /** 100.00 is shown exactly when at most one in twenty thousand expected learners is missing. */
  lemma FullPercentage(s: int, e: int)
    requires 0 <= s <= e && 0 < e
    ensures CompletionPercentage(s, e) == 10000 <==> 20000 * (e - s) <= e
  {
    RoundedIs(10000 * s, e, 10000);
  }

  /** Below twenty thousand expected learners, 100.00 means everybody. */
  lemma FullMeansEverybody(s: int, e: int)
    requires 0 <= s <= e < 20000 && 0 < e
    ensures CompletionPercentage(s, e) == 10000 <==> s == e
  {
    FullPercentage(s, e);
  }

  /** From twenty thousand on it does not: with one learner missing it still shows 100.00. */
  lemma TwentyThousandIsTight(e: int)
    requires 20000 <= e
    ensures CompletionPercentage(e - 1, e) == 10000
  {
    FullPercentage(e - 1, e);
  }
}
