/** Sorting input that is a few runs already: try_wave_sort of seq/algorithm.hpp. */
module WaveSort {
  import opened Ordering
  import opened StableSorting
  import opened Ranges
  import opened SmallSorts
  import opened InPlaceMerging
  import opened Runs

  /** Two neighbours of an ascending or of a descending run. */
  predicate InStep<T(!new)>(c: Order<T>, ascending: bool, x: T, y: T) {
    if ascending then !c.Less(y, x) else !c.Less(x, y)
  }

  /** The elements from `lo` to `hi` all go up, or all go down. */
  ghost predicate Directed<T(!new)>(c: Order<T>, ascending: bool, s: seq<T>, lo: int, hi: int) {
    && 0 <= lo && hi <= |s|
    && forall t :: lo < t < hi ==> InStep(c, ascending, s[t - 1], s[t])
  }

  /** `it` cuts a range into `last` non-empty runs, each in the direction its flag says. */
  ghost predicate CutAt<T(!new)>(c: Order<T>, it: seq<int>, ascending: seq<bool>, last: int, s: seq<T>) {
    && 0 <= last < |it| && last <= |ascending|
    && (forall i :: 0 <= i <= last ==> 0 <= it[i] <= |s|)
    && (forall i, j :: 0 <= i < j <= last ==> it[i] < it[j])
    && (forall i :: 0 <= i < last ==> Directed(c, ascending[i], s, it[i], it[i + 1]))
  }

  /** Every limit in front of `end` is where the next element breaks the run in front of it. */
  ghost predicate Broken<T(!new)>(c: Order<T>, it: seq<int>, ascending: seq<bool>, last: int, s: seq<T>, end: int) {
    && 0 <= last < |it| && last <= |ascending| && end <= |s|
    && forall i :: 0 < i <= last && 0 < it[i] < end ==> !InStep(c, ascending[i - 1], s[it[i] - 1], s[it[i]])
  }

  // ----- How far the runs reach -----

  /** Where the run ends whose last known element is in front of `k`. */
  function RunEnd<T(!new)>(c: Order<T>, s: seq<T>, k: int, up: bool): (e: int)
    requires 0 < k <= |s|
    ensures k <= e <= |s|
    decreases |s| - k
  {
    if k < |s| && InStep(c, up, s[k - 1], s[k]) then RunEnd(c, s, k + 1, up) else k
  }

  /** How many elements the runs cover, from the `cnt`-th on, which starts at `lo` and whose first
      elements, up to `k`, are known to go in its direction; there is room for `n - 1` runs. */
  function RunsFrom<T(!new)>(n: int, c: Order<T>, s: seq<T>, lo: int, k: int, up: bool, cnt: int): (d: int)
    requires 0 <= lo < k <= |s|
    ensures k <= d <= |s|
    decreases |s| - k
  {
    if k == |s| then k
    else
      var e := RunEnd(c, s, k, up);
      if cnt == n - 1 || e == |s| then e
      else if e == lo + 1 then RunsFrom(n, c, s, lo, e + 1, !up, cnt)
      else RunsFrom(n, c, s, e, e + 1, !up, cnt + 1)
  }

  /** How many elements are covered by the first `n - 1` ascending and descending runs. */
  function WaveDist<T(!new)>(n: int, c: Order<T>, s: seq<T>): (d: int)
    ensures 0 <= d <= |s| && (s != [] ==> d > 0)
  {
    if |s| <= 1 then |s| else RunsFrom(n, c, s, 0, 2, !c.Less(s[1], s[0]), 1)
  }

  /** How many elements try_wave_sort sorts. */
  function WaveSorted<T(!new)>(n: int, c: Order<T>, s: seq<T>, minDist: int): (d: int)
    ensures 0 <= d <= |s| && (0 < d ==> minDist <= d || |s| == 1)
  {
    if |s| != 1 && WaveDist(n, c, s) < minDist then 0 else WaveDist(n, c, s)
  }

  /** The search has come to element `k`, and goes on with the run that starts at `lo`. */
  ghost predicate Searched<T(!new)>(n: int, c: Order<T>, s: seq<T>, lo: int, k: int, up: bool, cnt: int) {
    && 0 <= lo < k <= |s|
    && RunsFrom(n, c, s, lo, k, up, cnt) == WaveDist(n, c, s) && (k == |s| ==> WaveDist(n, c, s) == k)
  }

  lemma SearchStarts<T(!new)>(n: int, c: Order<T>, s: seq<T>)
    requires |s| >= 2
    ensures Searched(n, c, s, 0, 2, !c.Less(s[1], s[0]), 1)
  {
  }

  lemma SearchStep<T(!new)>(n: int, c: Order<T>, s: seq<T>, lo: int, k: int, up: bool, cnt: int)
    requires Searched(n, c, s, lo, k, up, cnt) && k < |s|
    ensures var e := RunEnd(c, s, k, up); cnt == n - 1 || e == |s| ==> WaveDist(n, c, s) == e
  {
    hide RunEnd, WaveDist;
  }

  /** The next run is the same one in the other direction, if it had one element. */
  lemma SearchGoesOn<T(!new)>(n: int, c: Order<T>, s: seq<T>, lo: int, k: int, up: bool, cnt: int, e: int, lo': int,
                              k': int, up': bool, cnt': int)
    requires Searched(n, c, s, lo, k, up, cnt) && k < |s| && e == RunEnd(c, s, k, up) && cnt != n - 1 && e < |s|
    requires k' == e + 1 && up' == !up && if e == lo + 1 then lo' == lo && cnt' == cnt else lo' == e && cnt' == cnt + 1
    ensures Searched(n, c, s, lo', k', up', cnt')
  {
    hide RunEnd, WaveDist;
  }

  // ----- Finding the runs -----

  /** What the search has found when it has come to position `begin`: runs, each as long as it can be. */
  ghost predicate Found<T(!new)>(c: Order<T>, it: seq<int>, asc: seq<bool>, cnt: int, s: seq<T>, start: int, begin: int,
                                 size: int) {
    && 0 <= start < begin <= start + size <= |s| && |it| == |asc|
    && 1 <= cnt < |it| && it[0] == start && start <= it[cnt - 1] <= begin
    && CutAt(c, it, asc, cnt - 1, s) && Directed(c, asc[cnt - 1], s, it[cnt - 1], begin)
    && Broken(c, it, asc, cnt - 1, s, start + size)
  }

  /** The loop of try_wave_sort: finds consecutive ascending and descending runs, each as long as it can be, until
      the input or the room for their limits is used up. The last limit may still be missing. */
  method FindRuns<T(!new)>(iters: array<int>, ascending: array<bool>, a: array<T>, start: int, size: int, c: Order<T>)
    returns (begin: int, dist: int, cnt: int)
    requires c.StrictWeak() && iters.Length == ascending.Length >= 2 && iters as object != a && ascending as object != a
    requires iters as object != ascending
    requires 2 <= size && 0 <= start && start + size <= a.Length && iters[0] == start
    modifies iters, ascending
    ensures begin == start + dist && 2 <= dist <= size && 1 <= cnt < iters.Length && iters[0] == start
    ensures CutAt(c, iters[..], ascending[..], cnt - 1, a[..]) && iters[cnt - 1] <= begin
    ensures Directed(c, ascending[cnt - 1], a[..], iters[cnt - 1], begin)
    ensures Broken(c, iters[..], ascending[..], cnt - 1, a[..], start + size)
    ensures dist == size || (cnt == iters.Length - 1 && !InStep(c, ascending[cnt - 1], a[begin - 1], a[begin]))
    ensures dist == WaveDist(iters.Length, c, a[start..start + size])
  {
    hide c.StrictWeak, CutAt, Directed, InStep, RunEnd, Broken, RunsFrom, WaveDist;
    ghost var s, n := a[start..start + size], iters.Length;
    var prev := start;
    begin := start + 1;
    cnt, dist := 1, 1;
    ascending[0] := !c.Less(a[begin], a[prev]);
    FirstStep(c, a[..], start);
    SearchStarts(n, c, s);
    FirstCut(c, iters[..], ascending[..], a[..]);
    NoneBroken(c, iters[..], ascending[..], a[..], start + size);
    prev := begin;
    begin := begin + 1;
    dist := dist + 1;
    while dist != size
      invariant begin == start + dist && prev == begin - 1 && 2 <= dist <= size
      invariant Found(c, iters[..], ascending[..], cnt, a[..], start, begin, size) && iters[cnt - 1] < begin
      invariant Searched(n, c, s, iters[cnt - 1] - start, dist, ascending[cnt - 1], cnt)
      decreases size - dist
    {
      var more;
      begin, prev, dist, cnt, more := FindOne(iters, ascending, a, start, size, c, begin, prev, dist, cnt, s);
      if !more {
        break;
      }
    }
  }

  /** One turn of the loop. Tells whether there is room and input for another. */
  method FindOne<T(!new)>(iters: array<int>, ascending: array<bool>, a: array<T>, start: int, size: int, c: Order<T>,
                          begin0: int, prev0: int, dist0: int, cnt0: int, ghost s: seq<T>)
    returns (begin: int, prev: int, dist: int, cnt: int, more: bool)
    requires c.StrictWeak() && iters as object != a && ascending as object != a && iters as object != ascending
    requires iters.Length == ascending.Length && begin0 == start + dist0 && prev0 == begin0 - 1 && dist0 != size
    requires Found(c, iters[..], ascending[..], cnt0, a[..], start, begin0, size) && iters[cnt0 - 1] < begin0
    requires s == a[start..start + size]
    requires Searched(iters.Length, c, s, iters[cnt0 - 1] - start, dist0, ascending[cnt0 - 1], cnt0)
    modifies iters, ascending
    ensures begin == start + dist && prev == begin - 1 && dist0 <= dist <= size
    ensures Found(c, iters[..], ascending[..], cnt, a[..], start, begin, size)
    ensures more ==> iters[cnt - 1] < begin && dist0 < dist
    ensures more ==> Searched(iters.Length, c, s, iters[cnt - 1] - start, dist, ascending[cnt - 1], cnt)
    ensures !more ==> dist == WaveDist(iters.Length, c, s)
    ensures !more ==>
              dist == size || (cnt == iters.Length - 1 && !InStep(c, ascending[cnt - 1], a[begin - 1], a[begin]))
  {
    hide c.StrictWeak, CutAt, Directed, InStep, RunEnd, Broken, Searched, WaveDist, Found;
    FoundBounds(c, iters[..], ascending[..], cnt0, a[..], start, begin0, size);
    cnt := cnt0;
    ghost var n, lo, up := iters.Length, iters[cnt - 1] - start, ascending[cnt - 1];
    SearchStep(n, c, s, lo, dist0, up, cnt);
    begin, prev, dist := FollowRun(a, iters[cnt - 1], begin0, prev0, start, dist0, size, ascending[cnt - 1], c, s);
    FoundUpTo(c, iters[..], ascending[..], cnt, a[..], start, begin0, size, begin);
    if cnt == iters.Length - 1 {
      return begin, prev, dist, cnt, false;
    }
    cnt := CloseRun(iters, ascending, a, begin, prev, dist == size, cnt, c, start, size);
    if dist == size {
      return begin, prev, dist, cnt, false;
    }
    ghost var lo', up' := iters[cnt - 1] - start, ascending[cnt - 1];
    FoundNext(c, iters[..], ascending[..], cnt, a[..], start, begin, size);
    SearchGoesOn(n, c, s, lo, dist0, up, cnt0, dist, lo', dist + 1, up', cnt);
    begin, prev, dist, more := begin + 1, prev + 1, dist + 1, true;
  }

  lemma FoundBounds<T(!new)>(c: Order<T>, it: seq<int>, asc: seq<bool>, cnt: int, s: seq<T>, start: int, begin: int,
                             size: int)
    requires Found(c, it, asc, cnt, s, start, begin, size)
    ensures 0 <= start < begin <= start + size <= |s| && 1 <= cnt < |it| == |asc| && start <= it[cnt - 1] <= begin
    ensures Directed(c, asc[cnt - 1], s, it[cnt - 1], begin)
  {
  }

  lemma FoundUpTo<T(!new)>(c: Order<T>, it: seq<int>, asc: seq<bool>, cnt: int, s: seq<T>, start: int, begin: int,
                           size: int, next: int)
    requires Found(c, it, asc, cnt, s, start, begin, size) && begin <= next <= start + size
    requires Directed(c, asc[cnt - 1], s, it[cnt - 1], next)
    ensures Found(c, it, asc, cnt, s, start, next, size)
  {
    hide CutAt, Directed, Broken;
  }

  lemma FoundNext<T(!new)>(c: Order<T>, it: seq<int>, asc: seq<bool>, cnt: int, s: seq<T>, start: int, begin: int,
                           size: int)
    requires Found(c, it, asc, cnt, s, start, begin, size) && begin < start + size
    requires it[cnt - 1] < begin ==> InStep(c, asc[cnt - 1], s[begin - 1], s[begin])
    ensures Found(c, it, asc, cnt, s, start, begin + 1, size)
  {
    NextStep(c, asc[cnt - 1], s, it[cnt - 1], begin);
    hide CutAt, Directed, Broken;
  }

  /** The inner loop: extends the last run as long as its direction does not change. */
  method FollowRun<T(!new)>(a: array<T>, lo: int, begin0: int, prev0: int, start: int, dist0: int, size: int,
                            up: bool, c: Order<T>, ghost s: seq<T>)
    returns (begin: int, prev: int, dist: int)
    requires 0 <= lo < begin0 == start + dist0 && prev0 == begin0 - 1 && 0 < dist0 < size && 0 <= start
             && start + size <= a.Length
    requires s == a[start..start + size] && Directed(c, up, a[..], lo, begin0)
    ensures begin == start + dist && prev == begin - 1 && dist0 <= dist <= size
    ensures Directed(c, up, a[..], lo, begin) && dist == RunEnd(c, s, dist0, up)
    ensures dist < size ==> !InStep(c, up, a[prev], a[begin])
  {
    begin, prev, dist := begin0, prev0, dist0;
    while dist != size && InStep(c, up, a[prev], a[begin])
      invariant begin == start + dist && prev == begin - 1 && dist0 <= dist <= size
      invariant Directed(c, up, a[..], lo, begin) && RunEnd(c, s, dist, up) == RunEnd(c, s, dist0, up)
    {
      dist := dist + 1;
      prev := begin;
      begin := begin + 1;
    }
  }

  /** The end of a run: starts the next one in the other direction; but if the run consists of a
      single element, that element becomes the start of a run in the other direction. */
  method CloseRun<T(!new)>(iters: array<int>, ascending: array<bool>, a: array<T>, begin: int, prev: int, atEnd: bool,
                           cnt0: int, c: Order<T>, ghost start: int, ghost size: int) returns (cnt: int)
    requires c.StrictWeak() && 1 <= cnt0 < iters.Length - 1 && iters.Length == ascending.Length
    requires iters as object != a && ascending as object != a && iters as object != ascending
    requires Found(c, iters[..], ascending[..], cnt0, a[..], start, begin, size)
    requires prev == begin - 1 && iters[cnt0 - 1] <= prev && atEnd == (begin == start + size)
    requires !atEnd ==> !InStep(c, ascending[cnt0 - 1], a[prev], a[begin])
    modifies iters, ascending
    ensures cnt0 <= cnt < iters.Length && Found(c, iters[..], ascending[..], cnt, a[..], start, begin, size)
    ensures !atEnd && iters[cnt - 1] < begin ==> InStep(c, ascending[cnt - 1], a[prev], a[begin])
    ensures ascending[cnt - 1] == !old(ascending[cnt0 - 1])
    ensures if begin == old(iters[cnt0 - 1]) + 1 then cnt == cnt0 && iters[cnt - 1] == old(iters[cnt0 - 1])
            else cnt == cnt0 + 1 && iters[cnt - 1] == begin
  {
    hide Found, InStep, c.StrictWeak;
    ghost var it, asc := iters[..], ascending[..];
    FoundBounds(c, it, asc, cnt0, a[..], start, begin, size);
    var up := ascending[cnt0 - 1];
    ascending[cnt0] := !up;
    iters[cnt0] := begin;
    cnt := cnt0 + 1;
    assert iters[..] == it[cnt0 := begin] && ascending[..] == asc[cnt0 := !up];
    FoundClosed(c, it, asc, cnt0, a[..], start, begin, size);
    if cnt > 1 && begin == iters[cnt - 2] + 1 {
      ascending[cnt - 2] := !up;
      cnt := cnt - 1;
      assert ascending[..] == asc[cnt0 := !up][cnt0 - 1 := !up];
      if !atEnd {
        OtherWay(c, up, a[prev], a[begin]);
      }
    }
  }

  lemma RunClosed<T(!new)>(c: Order<T>, it: seq<int>, asc: seq<bool>, cnt: int, s: seq<T>, begin: int)
    requires 1 <= cnt < |it| && cnt < |asc| && it[cnt - 1] < begin <= |s|
    requires CutAt(c, it, asc, cnt - 1, s) && Directed(c, asc[cnt - 1], s, it[cnt - 1], begin)
    ensures var it', asc' := it[cnt := begin], asc[cnt := !asc[cnt - 1]];
            && CutAt(c, it', asc', cnt, s) && CutAt(c, it', asc, cnt, s)
            && CutAt(c, it', asc'[cnt - 1 := !asc[cnt - 1]], cnt - 1, s)
  {
    hide Directed;
  }

  /** A new run begins, or the last one is turned round. */
  lemma FoundClosed<T(!new)>(c: Order<T>, it: seq<int>, asc: seq<bool>, cnt: int, s: seq<T>, start: int, begin: int,
                             size: int)
    requires Found(c, it, asc, cnt, s, start, begin, size) && cnt < |it| - 1 && it[cnt - 1] < begin
    requires begin < start + size ==> !InStep(c, asc[cnt - 1], s[begin - 1], s[begin])
    ensures var it', asc' := it[cnt := begin], asc[cnt := !asc[cnt - 1]];
            && Found(c, it', asc', cnt + 1, s, start, begin, size)
            && (begin == it[cnt - 1] + 1 ==>
                  Found(c, it', asc'[cnt - 1 := !asc[cnt - 1]], cnt, s, start, begin, size))
  {
    RunClosed(c, it, asc, cnt, s, begin);
    RunBroken(c, it, asc, cnt, s, begin, start + size);
    hide CutAt, Broken, InStep;
  }

  lemma RunBroken<T(!new)>(c: Order<T>, it: seq<int>, asc: seq<bool>, cnt: int, s: seq<T>, begin: int, end: int)
    requires 1 <= cnt < |it| && cnt < |asc| && 0 < begin <= |s| && Broken(c, it, asc, cnt - 1, s, end)
    requires begin < end ==> !InStep(c, asc[cnt - 1], s[begin - 1], s[begin])
    ensures var it', asc' := it[cnt := begin], asc[cnt := !asc[cnt - 1]];
            Broken(c, it', asc', cnt, s, end) && Broken(c, it', asc'[cnt - 1 := !asc[cnt - 1]], cnt - 1, s, end)
  {
    hide InStep;
  }

  lemma NoneBroken<T(!new)>(c: Order<T>, it: seq<int>, asc: seq<bool>, s: seq<T>, end: int)
    requires it != [] && end <= |s|
    ensures Broken(c, it, asc, 0, s, end)
  {
  }

  lemma NextStep<T(!new)>(c: Order<T>, up: bool, s: seq<T>, lo: int, begin: int)
    requires Directed(c, up, s, lo, begin) && lo <= begin < |s|
    requires lo < begin ==> InStep(c, up, s[begin - 1], s[begin])
    ensures Directed(c, up, s, lo, begin + 1)
  {
  }

  lemma FirstStep<T(!new)>(c: Order<T>, s: seq<T>, start: int)
    requires c.StrictWeak() && 0 <= start && start + 2 <= |s|
    ensures Directed(c, !c.Less(s[start + 1], s[start]), s, start, start + 2)
  {
  }

  lemma FirstCut<T(!new)>(c: Order<T>, it: seq<int>, asc: seq<bool>, s: seq<T>)
    requires it != [] && 0 <= it[0] <= |s|
    ensures CutAt(c, it, asc, 0, s)
  {
  }

  lemma CutLimit<T(!new)>(c: Order<T>, it: seq<int>, asc: seq<bool>, last: int, s: seq<T>)
    requires CutAt(c, it, asc, last, s)
    ensures 0 <= last < |it| && 0 <= it[last] <= |s|
  {
  }

  lemma OtherWay<T(!new)>(c: Order<T>, up: bool, x: T, y: T)
    requires c.StrictWeak() && !InStep(c, up, x, y)
    ensures InStep(c, !up, x, y)
  {
  }

  /** A run in either direction, once a descending one is reversed, is its own stable sort. */
  lemma DirectedRun<T(!new)>(c: Order<T>, ascending: bool, s: seq<T>, lo: int, hi: int)
    requires c.StrictWeak() && Directed(c, ascending, s, lo, hi) && lo < hi
    ensures ascending ==> StableSort(c, s[lo..hi]) == s[lo..hi]
    ensures !ascending ==> c.Descending(s[lo..hi])
    ensures c.Sorted(StableSort(c, s[lo..hi])) && Rearranges(c, s[lo..hi], StableSort(c, s[lo..hi]))
  {
    var r := s[lo..hi];
    assert forall t :: 0 < t < |r| ==> InStep(c, ascending, r[t - 1], r[t]) by {
      forall t | 0 < t < |r| ensures InStep(c, ascending, r[t - 1], r[t]) {
        assert InStep(c, ascending, s[lo + t - 1], s[lo + t]);
      }
    }
    hide StableSort;
    if ascending {
      NeighboursSorted(c, r);
      SortOfSorted(c, r);
    } else {
      NeighboursDescending(c, r);
    }
    SortRearranges(c, r);
  }

  /** One run more is sorted: turned round if it descends. */
  method SortRun<T(!new)>(a: array<T>, up: bool, c: Order<T>, ghost was: seq<T>, ghost start: int, ghost done: seq<T>,
                          lo: int, hi: int, ghost it: seq<int>, ghost i: int) returns (ghost all: seq<T>)
    requires c.StrictWeak() && 0 <= start <= lo < hi <= a.Length == |was| && 0 <= i && Directed(c, up, was, lo, hi)
    requires RunsSorted(c, was[start..lo], was, start, done, lo, it, i, a[..]) && i + 1 < |it| && it[i + 1] == hi
    modifies a
    ensures RunsSorted(c, was[start..hi], was, start, all, hi, it, i + 1, a[..])
  {
    hide StableSort, Splice, c.StrictWeak, c.Sorted, c.Descending, Rearranges, RunsAt, Directed;
    ghost var s, x := a[..], StableSort(c, was[lo..hi]);
    DirectedRun(c, up, was, lo, hi);
    SpliceOutside(was, start, done, lo, hi);
    WholeSplice(s, lo, hi);
    if !up {
      ReverseSort(a, lo, hi, c);
    }
    RunRecorded(c, was[start..lo], was, start, done, lo, it, i + 1, s, was[lo..hi], hi, x, a[..]);
    assert it[i + 1 := hi] == it;
    assert was[start..hi] == was[start..lo] + was[lo..hi];
    all := done + x;
  }

  /** The last part of try_wave_sort: turns descending runs round and merges all of them. */
  method SortRuns<T(!new)>(t: Traits, iters: array<int>, ascending: array<bool>, cnt: int, a: array<T>, c: Order<T>,
                           buf: Buffer<T>)
    requires c.StrictWeak() && buf.Valid() && buf.first != a
    requires iters as object != a && ascending as object != a && iters as object != buf.first
             && ascending as object != buf.first
    requires 0 < cnt <= iters.Length && CutAt(c, iters[..], ascending[..], cnt - 1, a[..])
    modifies a, buf.first
    ensures a[..] == Splice(old(a[..]), old(iters[0]), StableSort(c, old(a[iters[0]..iters[cnt - 1]])))
    ensures buf.Kept(old(buf.first[..]))
  {
    hide StableSort, Splice, c.StrictWeak, RunsSorted, Directed;
    ghost var was, it := a[..], iters[..];
    ghost var start, done := iters[0], [];
    NoRuns(c, was, start, it);
    assert was[start..it[0]] == [];
    for i := 0 to cnt - 1
      invariant iters[..] == it && CutAt(c, it, ascending[..], cnt - 1, was) && ascending[..] == old(ascending[..])
      invariant RunsSorted(c, was[start..it[i]], was, start, done, it[i], it, i, a[..])
      invariant buf.first[..] == old(buf.first[..])
    {
      done := SortRun(a, ascending[i], c, was, start, done, iters[i], iters[i + 1], it, i);
    }
    RunsSoFar(c, was[start..it[cnt - 1]], was, start, done, it[cnt - 1], it, cnt - 1, a[..]);
    MergeSortedRuns(t, a, iters, 0, cnt - 1, c, buf);
    SpliceOver(was, start, StableSort(c, done), start, done);
  }

  /** try_wave_sort: if the input begins with few enough runs to sort at least `minDist` elements
      that way, does so; otherwise changes nothing. */
  method TryWaveSort<T(!new)>(iterCount: int, t: Traits, a: array<T>, start: int, size: int, minDist: int,
                              c: Order<T>, buf: Buffer<T>)
    returns (end: int, dist: int)
    requires c.StrictWeak() && buf.Valid() && buf.first != a && iterCount >= 2
    requires 0 <= size && 0 <= start && start + size <= a.Length
    modifies a, buf.first
    ensures end == start + dist && dist == WaveSorted(iterCount, c, old(a[start..start + size]), minDist)
    ensures dist == 0 ==> a[..] == old(a[..])
    ensures a[..] == Splice(old(a[..]), start, StableSort(c, old(a[start..end])))
    ensures buf.Kept(old(buf.first[..]))
  {
    hide StableSort, Splice, c.StrictWeak, CutAt, Directed, RunsFrom;
    ghost var was, bufWas := a[..], buf.first[..];
    if size == 0 {
      SplicePrefixes(c, was, start, 0);
      return start, 0;
    }
    var iters := new int[iterCount];
    iters[0] := start;
    var ascending := new bool[iterCount];
    if size == 1 {
      SplicePrefixes(c, was, start, 1);
      return start + 1, 1;
    }
    var cnt;
    assert a[..] == was;
    end, dist, cnt := FindRuns(iters, ascending, a, start, size, c);
    if dist < minDist {
      SplicePrefixes(c, was, start, 0);
      return start, 0;
    }
    ghost var it := iters[..];
    if iters[cnt - 1] != end {
      RunClosed(c, it, ascending[..], cnt, was, end);
      iters[cnt] := end;
      cnt := cnt + 1;
    }
    SortRuns(t, iters, ascending, cnt, a, c, buf);
  }
}
