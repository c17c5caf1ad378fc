/**
 * Largest-gap detection over one point's sorted timestamps: the differences
 * between consecutive timestamps, their maximum, and the first position that
 * reaches it (`diff()`, `max()` and `idxmax()` in the source).
 */
module Gaps {

  /** Either no outage, or the longest one: `duration` seconds missing between `start` and `end`. */
  datatype GapReport = NoGap | Gap(duration: int, start: int, end: int)

  /** The difference between the timestamp at `j` and its predecessor. */
  function Step(ts: seq<int>, j: nat): int
    requires 1 <= j < |ts|
  {
    ts[j] - ts[j - 1]
  }

  /** The first position among 1 .. n-1 whose step is the largest of those steps. */
  function FirstLargestStep(ts: seq<int>, n: nat): (k: nat)
    requires 2 <= n <= |ts|
    ensures 1 <= k < n
    ensures forall j :: 1 <= j < n ==> Step(ts, j) <= Step(ts, k)
    ensures forall j :: 1 <= j < k ==> Step(ts, j) < Step(ts, k)
  {
    if n == 2 then 1
    else
      var k := FirstLargestStep(ts, n - 1);
      if Step(ts, n - 1) > Step(ts, k) then n - 1 else k
  }

  /** Every step before position `k` is shorter than `bound`. */
  predicate StepsBelow(ts: seq<int>, k: nat, bound: int)
    requires k <= |ts|
  {
    forall j :: 1 <= j < k ==> Step(ts, j) < bound
  }

  /**
   * The gap report: with fewer than two timestamps, or when no step exceeds
   * one second, there is no gap; otherwise the largest step minus one second,
   * located at the first step that reaches the maximum.
   */
  function LargestGap(ts: seq<int>): (g: GapReport)
    ensures g.NoGap? <==> (|ts| < 2 || forall j :: 1 <= j < |ts| ==> Step(ts, j) <= 1)
    ensures g.Gap? ==> g.duration >= 1 && g.end - g.start == g.duration + 1
    ensures g.Gap? ==> forall j :: 1 <= j < |ts| ==> Step(ts, j) <= g.duration + 1
    ensures g.Gap? ==> exists k :: 1 <= k < |ts| && ts[k - 1] == g.start && ts[k] == g.end
                                 && StepsBelow(ts, k, g.duration + 1)
  {
    if |ts| < 2 then NoGap
    else
      var k := FirstLargestStep(ts, |ts|);
      var largest := Step(ts, k);
      if largest > 1 then Gap(largest - 1, ts[k - 1], ts[k]) else NoGap
  }

  /** Rows at 01:00:00, 01:00:05 and 01:05:00: 294 seconds missing between the last two. */
  lemma ThreeRowScenario()
    ensures LargestGap([3600, 3605, 3900]) == Gap(294, 3605, 3900)
  {
    assert Step([3600, 3605, 3900], 2) == 295;
  }
}
