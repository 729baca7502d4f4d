/** The depth-increase counter: how often a sonar reading is strictly
    larger than an earlier one, over single readings and over sliding
    windows of three. */
module SonarSweep {

  /** The number of positions i below k whose reading is strictly less than
      the reading `gap` places later.  This is the reference count, built
      from the far end, independently of the front-to-back recursion of
      `CountIncreases`. */
  function IncreasesAt(s: seq<int>, gap: nat, k: nat): (n: nat)
    requires k + gap <= |s|
    ensures n <= k
  {
    if k == 0 then 0
    else IncreasesAt(s, gap, k - 1) + (if s[k - 1] < s[k - 1 + gap] then 1 else 0)
  }

  /** `countIncreases`: split off the first reading, stop when nothing is
      left behind it, and otherwise count one more when the next reading is
      strictly larger.  The source panics in `split_at(1)` on an empty
      slice, hence the precondition; its `head.is_empty()` test can never
      succeed once that split has gone through. */
  function CountIncreases(count: nat, readings: seq<int>): (r: nat)
    requires |readings| >= 1
    ensures count <= r <= count + |readings| - 1
    decreases |readings|
  {
    var head, tail := readings[..1], readings[1..];
    if |head| == 0 || |tail| == 0 then count
    else
      var newCount := if head[0] < tail[0] then count + 1 else count;
      CountIncreases(newCount, tail)
  }

  /** Peeling the first pair off the reference count. */
  lemma {:induction false} IncreasesAtShift(s: seq<int>, gap: nat, k: nat)
    requires k + 1 + gap <= |s|
    ensures IncreasesAt(s, gap, k + 1) ==
      (if s[0] < s[gap] then 1 else 0) + IncreasesAt(s[1..], gap, k)
    decreases k
  {
    if k > 0 {
      IncreasesAtShift(s, gap, k - 1);
      assert s[1..][k - 1] == s[k] && s[1..][k - 1 + gap] == s[k + gap];
    }
  }

  /** `countIncreases(c, s)` is c plus the number of adjacent pairs of s
      that strictly increase. */
  lemma {:induction false} CountIncreasesCounts(count: nat, readings: seq<int>)
    requires |readings| >= 1
    ensures CountIncreases(count, readings) == count + IncreasesAt(readings, 1, |readings| - 1)
    decreases |readings|
  {
    if |readings| > 1 {
      var newCount := if readings[0] < readings[1] then count + 1 else count;
      CountIncreasesCounts(newCount, readings[1..]);
      IncreasesAtShift(readings, 1, |readings| - 2);
    }
  }

  /** Equal neighbours do not count: readings that never go up count
      nothing. */
  lemma NonIncreasingCountsNothing(count: nat, readings: seq<int>)
    requires |readings| >= 1
    requires forall i :: 0 <= i < |readings| - 1 ==> readings[i] >= readings[i + 1]
    ensures CountIncreases(count, readings) == count
  {
    CountIncreasesCounts(count, readings);
    NoIncreases(readings, |readings| - 1);
  }

  lemma {:induction false} NoIncreases(s: seq<int>, k: nat)
    requires k + 1 <= |s|
    requires forall i :: 0 <= i < |s| - 1 ==> s[i] >= s[i + 1]
    ensures IncreasesAt(s, 1, k) == 0
    decreases k
  {
    if k > 0 {
      NoIncreases(s, k - 1);
    }
  }

  /** Strictly rising readings reach the upper bound: every pair counts. */
  lemma StrictlyIncreasingCountsAll(count: nat, readings: seq<int>)
    requires |readings| >= 1
    requires forall i :: 0 <= i < |readings| - 1 ==> readings[i] < readings[i + 1]
    ensures CountIncreases(count, readings) == count + |readings| - 1
  {
    CountIncreasesCounts(count, readings);
    AllIncreases(readings, |readings| - 1);
  }

  lemma {:induction false} AllIncreases(s: seq<int>, k: nat)
    requires k + 1 <= |s|
    requires forall i :: 0 <= i < |s| - 1 ==> s[i] < s[i + 1]
    ensures IncreasesAt(s, 1, k) == k
    decreases k
  {
    if k > 0 {
      AllIncreases(s, k - 1);
    }
  }

  /** The sum of a slice, `iter().sum()`. */
  function Sum(s: seq<int>): int
  {
    if |s| == 0 then 0 else s[0] + Sum(s[1..])
  }

  lemma SumOfThree(s: seq<int>)
    requires |s| == 3
    ensures Sum(s) == s[0] + s[1] + s[2]
  {
    assert Sum(s[2..]) == s[2] + Sum(s[3..]);
    assert Sum(s[1..]) == s[1] + Sum(s[2..]);
  }

  /** `sumAdjacentSamples`: the sums of every window of three consecutive
      readings, in order; nothing when there are fewer than three. */
  function SumAdjacentSamples(input: seq<int>): (r: seq<int>)
    ensures |input| < 3 ==> r == []
    ensures |input| >= 3 ==> |r| == |input| - 2
    ensures forall i :: 0 <= i < |r| ==> r[i] == input[i] + input[i + 1] + input[i + 2]
    decreases |input|
  {
    if |input| < 3 then []
    else
      SumOfThree(input[0..3]);
      [Sum(input[0..3])] + SumAdjacentSamples(input[1..])
  }

  /** Two overlapping windows share their middle readings, so the later
      window is larger exactly when the reading it gains is larger than the
      one it drops. */
  lemma {:induction false} WindowIncreases(s: seq<int>, k: nat)
    requires k + 3 <= |s|
    ensures IncreasesAt(SumAdjacentSamples(s), 1, k) == IncreasesAt(s, 3, k)
    decreases k
  {
    if k > 0 {
      WindowIncreases(s, k - 1);
      var sums := SumAdjacentSamples(s);
      assert sums[k - 1] == s[k - 1] + s[k] + s[k + 1];
      assert sums[k] == s[k] + s[k + 1] + s[k + 2];
    }
  }

  /** Counting increases over the window sums is counting readings that are
      smaller than the reading three places later. */
  lemma SlidingWindowCount(readings: seq<int>)
    requires |readings| >= 3
    ensures CountIncreases(0, SumAdjacentSamples(readings)) == IncreasesAt(readings, 3, |readings| - 3)
  {
    var sums := SumAdjacentSamples(readings);
    assert |sums| - 1 == |readings| - 3;
    CountIncreasesCounts(0, sums);
    WindowIncreases(readings, |readings| - 3);
  }
}
