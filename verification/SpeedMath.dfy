/**
 The arithmetic of the speed average: the sum of long differences as a weighted
 sum of the single intervals, and the two divisions as one.
 */
module SpeedMath {
  import opened Division
  import opened Machine

  /** The sum of the first j differences across half the list: t[i + m] - t[i] for i < j. */
  function DiffSum(t: seq<int>, m: nat, j: nat): int
    requires j <= m && 2 * m <= |t|
  {
    if j == 0 then 0 else DiffSum(t, m, j - 1) + (t[j - 1 + m] - t[j - 1])
  }

  /** The first k intervals, interval i weighted by its distance from the nearer end of the list. */
  function Weighted(t: seq<int>, k: nat): int
    requires k < |t|
  {
    if k == 0 then 0 else Weighted(t, k - 1) + Min(k, |t| - k) * Interval(t, k)
  }

  function WeightTotal(n: nat, k: nat): int {
    if k == 0 then 0 else WeightTotal(n, k - 1) + Min(k, n - k)
  }

  function Total(t: seq<int>, k: nat): int
    requires k <= |t|
  {
    if k == 0 then 0 else Total(t, k - 1) + t[k - 1]
  }

  lemma {:induction false} DiffSumByTotals(t: seq<int>, m: nat, j: nat)
    requires j <= m && 2 * m <= |t|
    ensures DiffSum(t, m, j) == Total(t, m + j) - Total(t, m) - Total(t, j)
  {
    if j > 0 { DiffSumByTotals(t, m, j - 1); }
  }

  /** Up to the middle the weights rise, and the weighted sum telescopes. */
  lemma {:induction false} RisingWeights(t: seq<int>, m: nat, k: nat)
    requires |t| == 2 * m && k <= m && k < |t|
    ensures Weighted(t, k) == k * t[k] - Total(t, k)
  {
    if k > 0 {
      RisingWeights(t, m, k - 1);
      Distribute(k, t[k], t[k - 1]);
      Distribute(k - 1, t[k - 1], 0);
    }
  }

  /** From the middle they fall. */
  lemma {:induction false} FallingWeights(t: seq<int>, m: nat, k: nat)
    requires |t| == 2 * m && m <= k < |t|
    ensures Weighted(t, k) == (2 * m - k) * t[k] + Total(t, k) - 2 * Total(t, m)
  {
    if k == m {
      RisingWeights(t, m, m);
    } else {
      FallingWeights(t, m, k - 1);
      var w := 2 * m - k;
      Distribute(w, t[k], t[k - 1]);
      Distribute(w, t[k - 1], 0);
    }
  }

  /**
   For any even number of time stamps whatever, the sum of the differences across
   half the list is the sum of the intervals, interval i weighted by min(i, n - i).
   */
  lemma LongDifferencesAreWeightedIntervals(t: seq<int>, m: nat)
    requires 0 < m && |t| == 2 * m
    ensures DiffSum(t, m, m) == Weighted(t, 2 * m - 1)
  {
    DiffSumByTotals(t, m, m);
    FallingWeights(t, m, 2 * m - 1);
  }

  /** The product of a number and the next, twice the sum of the numbers up to it. */
  function Oblong(k: int): int {
    k * (k + 1)
  }

  lemma OblongNext(k: int)
    ensures Oblong(k) == Oblong(k - 1) + 2 * k
  {
    DistributeSum(k, k - 1, 2);
    Commute(k, k - 1);
  }

  lemma {:induction false} RisingTotal(m: nat, k: nat)
    requires k <= m
    ensures 2 * WeightTotal(2 * m, k) == Oblong(k)
  {
    if k > 0 {
      RisingTotal(m, k - 1);
      OblongNext(k);
    }
  }

  lemma {:induction false} FallingTotal(m: nat, k: nat)
    requires m <= k <= 2 * m
    ensures 2 * WeightTotal(2 * m, k) == Oblong(m) + Oblong(m - 1) - Oblong(2 * m - k - 1)
  {
    if k == m {
      RisingTotal(m, m);
    } else {
      FallingTotal(m, k - 1);
      OblongNext(2 * m - k);
    }
  }

  function Square(m: nat): (s: nat)
    ensures s == m * m && (0 < m ==> 0 < s)
  {
    MulMonotone(0, m, m);
    if 0 < m then MulMonotone(1, m, m); m * m else 0
  }

  /** The weights of all the intervals add up to the square of half the list. */
  lemma WeightsTotal(m: nat)
    requires 0 < m
    ensures WeightTotal(2 * m, 2 * m - 1) == Square(m)
  {
    FallingTotal(m, 2 * m - 1);
    OblongNext(m);
    DistributeSum(m, m, 1);
  }

  /** Every interval of the list lies between lo and hi. */
  predicate Between(t: seq<int>, lo: int, hi: int) {
    forall i | 0 < i < |t| :: lo <= Interval(t, i) <= hi
  }

  function Interval(t: seq<int>, i: nat): int
    requires 0 < i < |t|
  {
    t[i] - t[i - 1]
  }

  /** One more term between its bounds, on a weighted sum between its own. */
  lemma NextBetween(lo: int, hi: int, total: int, sum: int, w: nat, x: int)
    requires lo * total <= sum <= hi * total && lo <= x <= hi
    ensures lo * (total + w) <= sum + w * x <= hi * (total + w)
  {
    DistributeSum(lo, total, w);
    DistributeSum(hi, total, w);
    Commute(w, x);
    MulMonotone(lo, x, w);
    MulMonotone(x, hi, w);
  }

  lemma {:induction false} WeightedBetween(t: seq<int>, k: nat, lo: int, hi: int)
    requires k < |t| && Between(t, lo, hi)
    ensures lo * WeightTotal(|t|, k) <= Weighted(t, k) <= hi * WeightTotal(|t|, k)
  {
    if k > 0 {
      WeightedBetween(t, k - 1, lo, hi);
      NextBetween(lo, hi, WeightTotal(|t|, k - 1), Weighted(t, k - 1), Min(k, |t| - k), Interval(t, k));
    }
  }

  /** Dividing twice by m is one division by its square. */
  lemma DivideTwice(s: int, m: nat)
    requires 0 < m
    ensures s / m / m == s / Square(m)
  {
    var a := s / m;
    var q := a / m;
    DivisionOf(s, m);
    DivisionOf(a, m);
    DistributeSum(m, q * m, a % m);
    Associate(q, m, m);
    MulMonotone(0, a % m, m);
    MulMonotone(a % m, m - 1, m);
    Distribute(m - 1, m, 0);
    Distribute(q, Square(m), 0);
    DivUnique(s, Square(m), q);
  }

  /** A floor division of a quantity between lo and hi times the divisor. */
  lemma QuotientBetween(s: int, d: int, lo: int, hi: int)
    requires 0 < d && lo * d <= s <= hi * d
    ensures lo <= s / d <= hi
  {
    var q := s / d;
    DivisionOf(s, d);
    Distribute(q, d, 0);
    Distribute(hi, d, 0);
    if q < lo {
      MulMonotone(q + 1, lo, d);
    } else if hi < q {
      MulMonotone(hi + 1, q, d);
    }
  }

  /**
   The average of the long differences, computed by two divisions, is one floor
   division of the weighted intervals by the total weight; so it lies between the
   smallest and the largest interval.
   */
  lemma AverageIsAnAverage(t: seq<int>, m: nat, lo: nat, hi: nat)
    requires 0 < m && |t| == 2 * m && Between(t, lo, hi)
    ensures 0 <= DiffSum(t, m, m)
    ensures DiffSum(t, m, m) / m / m == Weighted(t, 2 * m - 1) / Square(m)
    ensures lo <= DiffSum(t, m, m) / m / m <= hi
  {
    LongDifferencesAreWeightedIntervals(t, m);
    WeightsTotal(m);
    WeightedBetween(t, 2 * m - 1, lo, hi);
    MulMonotone(0, lo, Square(m));
    DivideTwice(DiffSum(t, m, m), m);
    QuotientBetween(DiffSum(t, m, m), Square(m), lo, hi);
  }
}
