/** Which elements try_wave_sort sorts: those of the first few longest runs. */
module Waves {
  import opened NetSort
  import opened Ordering
  import opened StableSorting
  import opened WaveSort

  /** `it` cuts the first elements of `s` into runs: each goes up or down, as `up` says, as far as it can. The first
      goes the way its first two elements go, up if they are equivalent; each later one goes the other way than the
      run in front of it if its first two elements allow it or if it is the last that there is room for. */
  ghost predicate RunsIn<T(!new)>(c: Order<T>, n: int, s: seq<T>, it: seq<int>, up: seq<bool>) {
    && 1 <= |up| <= n - 1 && |it| == |up| + 1 && it[0] == 0
    && forall i :: 0 <= i < |up| ==> RunIn(c, n, s, it, up, i)
  }

  ghost predicate RunIn<T(!new)>(c: Order<T>, n: int, s: seq<T>, it: seq<int>, up: seq<bool>, i: int)
    requires 0 <= i < |up| && |it| == |up| + 1
  {
    && LongestRun(c, s, it[i], it[i + 1], up[i])
    && (it[i] + 1 < |s| ==>
          var (x, y) := (s[it[i]], s[it[i] + 1]);
          up[i] == if i == 0 then !c.Less(y, x)
                   else if i == n - 2 || InStep(c, !up[i - 1], x, y) then !up[i - 1] else up[i - 1])
  }

  /** The elements from `lo` to `hi` go up, or down, and the one behind them does not. */
  ghost predicate LongestRun<T(!new)>(c: Order<T>, s: seq<T>, lo: int, hi: int, up: bool) {
    && 0 <= lo < hi <= |s|
    && (forall t :: lo < t < hi ==> if up then !c.Less(s[t], s[t - 1]) else !c.Less(s[t - 1], s[t]))
    && (hi < |s| ==> if up then c.Less(s[hi], s[hi - 1]) else c.Less(s[hi - 1], s[hi]))
  }

  /** The runs cover `d` elements: all, or as many as the `n - 1` runs do that there is room for. */
  ghost predicate Cover<T(!new)>(c: Order<T>, n: int, s: seq<T>, it: seq<int>, up: seq<bool>, d: int) {
    RunsIn(c, n, s, it, up) && d == it[|up|] && (d == |s| || |up| == n - 1)
  }

  // ----- The search covers them -----

  lemma {:induction false} RunEndIs<T(!new)>(c: Order<T>, s: seq<T>, lo: int, hi: int, k: int, up: bool)
    requires LongestRun(c, s, lo, hi, up) && lo < k <= hi
    ensures RunEnd(c, s, k, up) == hi
    decreases hi - k
  {
    if k < hi {
      RunEndIs(c, s, lo, hi, k + 1, up);
    }
  }

  lemma RunAt<T(!new)>(c: Order<T>, n: int, s: seq<T>, it: seq<int>, up: seq<bool>, i: int)
    requires RunsIn(c, n, s, it, up) && 0 <= i < |up|
    ensures LongestRun(c, s, it[i], it[i + 1], up[i]) && |up| <= n - 1 && |it| == |up| + 1
    ensures 0 < i && it[i] + 1 < |s| ==>
              up[i] == if i == n - 2 || InStep(c, !up[i - 1], s[it[i]], s[it[i] + 1]) then !up[i - 1] else up[i - 1]
  {
    assert RunIn(c, n, s, it, up, i);
  }

  /** A run that reaches the end is the last. */
  lemma LastRun<T(!new)>(c: Order<T>, n: int, s: seq<T>, it: seq<int>, up: seq<bool>, i: int)
    requires RunsIn(c, n, s, it, up) && 0 < i <= |up|
    ensures i == |up| || it[i] < |s|
  {
    if i < |up| {
      assert RunIn(c, n, s, it, up, i);
    }
  }

  /** From the `i`-th run on, the search reaches as far as the runs, with that run known up to `k`. */
  lemma {:induction false} SearchFrom<T(!new)>(c: Order<T>, n: int, s: seq<T>, it: seq<int>, up: seq<bool>, d: int,
                                               i: int, k: int)
    requires c.StrictWeak() && Cover(c, n, s, it, up, d) && 0 <= i < |up| && 0 <= it[i] < k <= it[i + 1] <= |s|
    requires k == it[i] + 1 ==> it[i] + 1 == |s| || i == n - 2 || it[i + 1] > k
    ensures RunsFrom(n, c, s, it[i], k, up[i], i + 1) == d
    decreases |up| - i, 0
  {
    hide RunEnd, c.StrictWeak, RunsIn, InStep;
    RunAt(c, n, s, it, up, i);
    RunEndIs(c, s, it[i], it[i + 1], k, up[i]);
    if it[i + 1] == |s| {
      LastRun(c, n, s, it, up, i + 1);
    } else if i + 1 < n - 1 {
      RunAt(c, n, s, it, up, i + 1);
      NextRunFrom(c, n, s, it, up, d, i + 1);
    }
  }

  /** A later run is looked for in the other direction first. */
  lemma {:induction false} NextRunFrom<T(!new)>(c: Order<T>, n: int, s: seq<T>, it: seq<int>, up: seq<bool>, d: int,
                                                i: int)
    requires c.StrictWeak() && Cover(c, n, s, it, up, d) && 0 < i < |up| && 0 <= it[i] < |s|
    ensures RunsFrom(n, c, s, it[i], it[i] + 1, !up[i - 1], i + 1) == d
    decreases |up| - i, 1
  {
    hide RunsIn, RunsFrom;
    RunAt(c, n, s, it, up, i);
    var lo := it[i];
    if lo + 1 == |s| {
      LastRun(c, n, s, it, up, i + 1);
      AtEnd(n, c, s, lo, !up[i - 1], i + 1);
    } else if up[i] == !up[i - 1] {
      SearchFrom(c, n, s, it, up, d, i, lo + 1);
    } else {
      TurnedRound(n, c, s, lo, !up[i - 1], i + 1);
      assert it[i + 1] > lo + 1;
      SearchFrom(c, n, s, it, up, d, i, lo + 2);
    }
  }

  lemma AtEnd<T(!new)>(n: int, c: Order<T>, s: seq<T>, lo: int, up: bool, cnt: int)
    requires 0 <= lo && lo + 1 == |s|
    ensures RunsFrom(n, c, s, lo, lo + 1, up, cnt) == |s|
  {
  }

  lemma TurnedRound<T(!new)>(n: int, c: Order<T>, s: seq<T>, lo: int, up: bool, cnt: int)
    requires 0 <= lo && lo + 1 < |s| && !InStep(c, up, s[lo], s[lo + 1]) && cnt != n - 1
    ensures RunsFrom(n, c, s, lo, lo + 1, up, cnt) == RunsFrom(n, c, s, lo, lo + 2, !up, cnt)
  {
    assert RunEnd(c, s, lo + 1, up) == lo + 1;
  }

  lemma CoveredOnce<T(!new)>(c: Order<T>, n: int, s: seq<T>, it: seq<int>, up: seq<bool>, d: int)
    requires c.StrictWeak() && Cover(c, n, s, it, up, d)
    ensures d == WaveDist(n, c, s)
  {
    RunAt(c, n, s, it, up, 0);
    if |s| >= 2 {
      assert RunIn(c, n, s, it, up, 0);
      SearchFrom(c, n, s, it, up, d, 0, 2);
    } else {
      LastRun(c, n, s, it, up, 1);
    }
  }

  // ----- There are such runs -----

  lemma LongestRunExists<T(!new)>(c: Order<T>, s: seq<T>, lo: int, up: bool) returns (hi: int)
    requires 0 <= lo < |s|
    ensures LongestRun(c, s, lo, hi, up)
  {
    hi := lo + 1;
    while hi < |s| && if up then !c.Less(s[hi], s[hi - 1]) else !c.Less(s[hi - 1], s[hi])
      invariant lo < hi <= |s|
      invariant forall t :: lo < t < hi ==> if up then !c.Less(s[t], s[t - 1]) else !c.Less(s[t - 1], s[t])
    {
      hi := hi + 1;
    }
  }

  lemma RunsExist<T(!new)>(c: Order<T>, n: int, s: seq<T>) returns (it: seq<int>, up: seq<bool>)
    requires s != [] && n >= 2
    ensures |it| == |up| + 1 && Cover(c, n, s, it, up, it[|up|])
  {
    up := [|s| >= 2 && !c.Less(s[1], s[0])];
    var hi := LongestRunExists(c, s, 0, up[0]);
    it := [0, hi];
    while it[|up|] < |s| && |up| < n - 1
      invariant RunsIn(c, n, s, it, up) && it[|up|] <= |s|
      decreases n - |up|
    {
      var i, lo := |up|, it[|up|];
      RunAt(c, n, s, it, up, i - 1);
      var turn := i == n - 2 || lo + 1 == |s| || InStep(c, !up[i - 1], s[lo], s[lo + 1]);
      var dir := if turn then !up[i - 1] else up[i - 1];
      hi := LongestRunExists(c, s, lo, dir);
      OneRunMore(c, n, s, it, up, hi, dir);
      it, up := it + [hi], up + [dir];
    }
  }

  lemma OneRunMore<T(!new)>(c: Order<T>, n: int, s: seq<T>, it: seq<int>, up: seq<bool>, hi: int, dir: bool)
    requires RunsIn(c, n, s, it, up) && |up| < n - 1 && LongestRun(c, s, it[|up|], hi, dir)
    requires var i, lo := |up|, it[|up|];
             0 <= lo
             && (lo + 1 < |s| ==>
                   dir == if i == n - 2 || InStep(c, !up[i - 1], s[lo], s[lo + 1]) then !up[i - 1] else up[i - 1])
    ensures RunsIn(c, n, s, it + [hi], up + [dir])
  {
    hide LongestRun, InStep;
    var jt, vp := it + [hi], up + [dir];
    forall i | 0 <= i < |vp| ensures RunIn(c, n, s, jt, vp, i) {
      if i < |up| {
        assert RunIn(c, n, s, it, up, i);
        SameRun(c, n, s, it, up, jt, vp, i);
      }
    }
  }

  lemma SameRun<T(!new)>(c: Order<T>, n: int, s: seq<T>, it: seq<int>, up: seq<bool>, jt: seq<int>, vp: seq<bool>,
                         i: int)
    requires |it| == |up| + 1 && |jt| == |vp| + 1 && 0 <= i < |up| <= |vp| && RunIn(c, n, s, it, up, i)
    requires jt[i] == it[i] && jt[i + 1] == it[i + 1] && vp[i] == up[i] && (i > 0 ==> vp[i - 1] == up[i - 1])
    ensures RunIn(c, n, s, jt, vp, i)
  {
  }

  /** How many elements the search covers: those of the first `n - 1` longest runs. */
  lemma WaveDistIff<T(!new)>(n: int, c: Order<T>, s: seq<T>, d: int)
    requires c.StrictWeak() && s != [] && n >= 2
    ensures d == WaveDist(n, c, s) <==> exists it, up :: Cover(c, n, s, it, up, d)
  {
    hide Cover, WaveDist, c.StrictWeak;
    if d == WaveDist(n, c, s) {
      var it, up := RunsExist(c, n, s);
      CoveredOnce(c, n, s, it, up, it[|up|]);
    }
    if it, up :| Cover(c, n, s, it, up, d) {
      CoveredOnce(c, n, s, it, up, d);
    }
  }

  // ----- Descending input -----

  /** A descending range is covered, by one run or, if it begins with some equivalent elements, two; unless there is
      room for one run only, it begins with two equivalent elements, and not all are equivalent. */
  lemma DescendingIff<T(!new)>(n: int, c: Order<T>, s: seq<T>)
    requires c.StrictWeak() && c.Descending(s) && n >= 2
    ensures WaveSorted(n, c, s, |s|) == |s| <==>
            n > 2 || |s| < 2 || c.Less(s[1], s[0]) || !c.Less(s[|s| - 1], s[0])
  {
    hide WaveDist, c.StrictWeak, Cover;
    if |s| >= 2 {
      if c.Less(s[1], s[0]) {
        OneRun(c, n, s, |s|, false);
      } else {
        var hi := LongestRunExists(c, s, 0, true);
        AllEquivalent(c, s, hi);
        if hi == |s| || n == 2 {
          OneRun(c, n, s, hi, true);
        } else {
          TwoRuns(c, n, s, hi);
        }
      }
    }
  }

  lemma OneRun<T(!new)>(c: Order<T>, n: int, s: seq<T>, hi: int, up: bool)
    requires c.StrictWeak() && n >= 2 && |s| >= 2 && up == !c.Less(s[1], s[0])
    requires LongestRun(c, s, 0, hi, up) && (hi == |s| || n == 2)
    ensures WaveDist(n, c, s) == hi
  {
    hide WaveDist, c.StrictWeak, LongestRun;
    var it, vp := [0, hi], [up];
    assert RunIn(c, n, s, it, vp, 0);
    CoveredOnce(c, n, s, it, vp, hi);
  }

  lemma TwoRuns<T(!new)>(c: Order<T>, n: int, s: seq<T>, hi: int)
    requires c.StrictWeak() && n > 2 && |s| >= 2 && c.Descending(s) && !c.Less(s[1], s[0])
    requires LongestRun(c, s, 0, hi, true) && hi < |s|
    ensures WaveDist(n, c, s) == |s|
  {
    hide WaveDist, c.StrictWeak;
    var it, vp := [0, hi, |s|], [true, false];
    assert RunIn(c, n, s, it, vp, 0) && RunIn(c, n, s, it, vp, 1);
    CoveredOnce(c, n, s, it, vp, |s|);
  }

  lemma AllEquivalent<T(!new)>(c: Order<T>, s: seq<T>, hi: int)
    requires c.StrictWeak() && c.Descending(s) && |s| >= 2 && LongestRun(c, s, 0, hi, true)
    ensures hi == |s| <==> !c.Less(s[|s| - 1], s[0])
  {
    EquivalentTo(c, s, hi, hi - 1);
    if hi < |s| {
      c.LessLeq(s[hi], s[hi - 1], s[0]);
      if hi < |s| - 1 {
        c.LeqLess(s[|s| - 1], s[hi], s[0]);
      }
    }
  }

  lemma {:induction false} EquivalentTo<T(!new)>(c: Order<T>, s: seq<T>, hi: int, t: int)
    requires c.StrictWeak() && LongestRun(c, s, 0, hi, true) && 0 <= t < hi
    ensures !c.Less(s[t], s[0])
    decreases t
  {
    if t > 0 {
      EquivalentTo(c, s, hi, t - 1);
      c.LeqTransitive(s[t], s[t - 1], s[0]);
    }
  }

  // ----- net_sort -----

  /** Through every kind of iterator, a range that consists of at most four runs is sorted stably. */
  lemma FewRunsStable<T(!new)>(randomAccess: bool, c: Order<T>, s: seq<T>, it: seq<int>, up: seq<bool>)
    requires c.StrictWeak() && Cover(c, 5, s, it, up, |s|)
    ensures NetSorted(randomAccess, c, s) == StableSort(c, s)
  {
    CoveredOnce(c, 5, s, it, up, |s|);
    if |s| >= 16 {
      OneRunArranged(randomAccess, c, s);
    }
  }

  /** So is a range that descends. */
  lemma DescendingStable<T(!new)>(randomAccess: bool, c: Order<T>, s: seq<T>)
    requires c.StrictWeak() && c.Descending(s)
    ensures NetSorted(randomAccess, c, s) == StableSort(c, s)
  {
    DescendingIff(5, c, s);
    if |s| >= 16 {
      OneRunArranged(randomAccess, c, s);
    }
  }
}
