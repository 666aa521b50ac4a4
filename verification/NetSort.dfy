/** The drivers of seq/algorithm.hpp: generic_merge_sort_internal, merge_sort_internal and
    net_sort_size. */
module NetSort {
  import opened Ordering
  import opened StableSorting
  import opened Ranges
  import opened SmallSorts
  import opened InPlaceMerging
  import opened Runs
  import opened Chunks
  import opened WaveSort

  const MAX_ITERS := 65
  const SIZE_MAX := 0xFFFF_FFFF_FFFF_FFFF

  /** The least size of a run that is not the last one of a pass. */
  function RunSize(minSize: int): int {
    if minSize == 0 then 128 else minSize
  }

  /** The range delimited by the first and last of `cuts` is made of sorted chunks, and all of
      them but the last have at least `m` elements. */
  ghost predicate Chunked<T(!new)>(c: Order<T>, cuts: seq<int>, m: int, s: seq<T>) {
    && cuts != []
    && RunsAt(c, cuts, 0, |cuts| - 1, s)
    && forall i :: 0 <= i < |cuts| - 2 ==> cuts[i + 1] - cuts[i] >= m
  }

  // ----- What the sort computes -----

  /** The elements whose stable sort the first pass leads to. It takes the elements run by run where
      try_wave_sort sorts enough of them, and otherwise up to 128 at once in blocks of eight. */
  function Arranged<T(!new)>(randomAccess: bool, c: Order<T>, s: seq<T>): (r: seq<T>)
    ensures |r| == |s| && multiset(r) == multiset(s)
    decreases |s|
  {
    if s == [] then []
    else
      var n := FirstSize(c, s);
      assert s == s[..n] + s[n..];
      First(randomAccess, c, s) + Arranged(randomAccess, c, s[n..])
  }

  /** How many elements are sorted at once. */
  function FirstSize<T(!new)>(c: Order<T>, s: seq<T>): (n: int)
    requires s != []
    ensures 0 < n <= |s| && (n < |s| ==> n >= 128)
  {
    var m := if |s| < 128 then |s| else 128;
    if WaveSorted(5, c, s, m) != 0 then WaveSorted(5, c, s, m) else m
  }

  function First<T(!new)>(randomAccess: bool, c: Order<T>, s: seq<T>): (r: seq<T>)
    requires s != []
    ensures |r| == FirstSize(c, s) && multiset(r) == multiset(s[..FirstSize(c, s)])
  {
    var m := if |s| < 128 then |s| else 128;
    if WaveSorted(5, c, s, m) != 0 then s[..WaveSorted(5, c, s, m)] else Blocks(randomAccess, c, s[..m])
  }

  /** What net_sort_size leaves. */
  function NetSorted<T(!new)>(randomAccess: bool, c: Order<T>, s: seq<T>): seq<T> {
    StableSort(c, if |s| < 16 then s else Arranged(randomAccess, c, s))
  }

  /** It is the elements in order; and without random access, it is the stable sort. */
  lemma NetSorts<T(!new)>(randomAccess: bool, c: Order<T>, s: seq<T>)
    requires c.StrictWeak()
    ensures c.Sorted(NetSorted(randomAccess, c, s)) && multiset(NetSorted(randomAccess, c, s)) == multiset(s)
    ensures !randomAccess || |s| < 16 ==> NetSorted(randomAccess, c, s) == StableSort(c, s)
  {
    hide c.StrictWeak;
    var p := if |s| < 16 then s else Arranged(randomAccess, c, s);
    SortSorted(c, p);
    SortPermutes(c, p);
    if !randomAccess {
      NothingRearranged(c, s);
    }
  }

  /** A range in order is left alone: it is one run. */
  lemma SortedStays<T(!new)>(randomAccess: bool, c: Order<T>, s: seq<T>)
    requires c.StrictWeak() && c.Sorted(s)
    ensures NetSorted(randomAccess, c, s) == s
  {
    SortOfSorted(c, s);
    if |s| >= 16 {
      AscendingRun(c, s, 2);
      hide StableSort, c.StrictWeak, RunEnd, Arranged;
      OneRunArranged(randomAccess, c, s);
    }
  }

  lemma OneRunArranged<T(!new)>(randomAccess: bool, c: Order<T>, s: seq<T>)
    requires |s| >= 16 && WaveDist(5, c, s) == |s|
    ensures Arranged(randomAccess, c, s) == s
  {
    hide Blocks, WaveDist;
    assert FirstSize(c, s) == |s| && s[..|s|] == s && Arranged(randomAccess, c, s[|s|..]) == [];
  }

  lemma {:induction false} AscendingRun<T(!new)>(c: Order<T>, s: seq<T>, k: int)
    requires c.Sorted(s) && 0 < k <= |s|
    ensures RunEnd(c, s, k, true) == |s|
    decreases |s| - k
  {
    if k < |s| {
      AscendingRun(c, s, k + 1);
    }
  }

  lemma {:induction false} NothingRearranged<T(!new)>(c: Order<T>, s: seq<T>)
    ensures Arranged(false, c, s) == s
    decreases |s|
  {
    hide Arranged, FirstSize;
    ArrangedStep(c, s);
    if s != [] {
      var n := FirstSize(c, s);
      NothingRearranged(c, s[n..]);
      assert s == s[..n] + s[n..];
    }
  }

  lemma ArrangedStep<T(!new)>(c: Order<T>, s: seq<T>)
    ensures Arranged(false, c, []) == []
    ensures s != [] ==> var n := FirstSize(c, s); Arranged(false, c, s) == s[..n] + Arranged(false, c, s[n..])
  {
    hide FirstSize, First;
    if s != [] {
      FirstUnchanged(c, s);
    }
  }

  lemma FirstUnchanged<T(!new)>(c: Order<T>, s: seq<T>)
    requires s != []
    ensures First(false, c, s) == s[..FirstSize(c, s)]
  {
    hide Blocks;
    NoNetwork(c, s[..if |s| < 128 then |s| else 128]);
  }

  // ----- Finding a sorted range by skipping over its beginning -----

  /** Every position of a chunked range is in some chunk. */
  lemma {:induction false} ChunkOf(cuts: seq<int>, p: int) returns (i: int)
    requires |cuts| >= 2 && cuts[0] <= p < cuts[|cuts| - 1]
    ensures 0 <= i < |cuts| - 1 && cuts[i] <= p < cuts[i + 1]
  {
    if p < cuts[1] {
      i := 0;
    } else {
      i := ChunkOf(cuts[1..], p);
      i := i + 1;
    }
  }

  /** A descent can only be where one chunk ends and the next begins. */
  lemma DescentIsCut<T(!new)>(c: Order<T>, cuts: seq<int>, m: int, s: seq<T>, p: int) returns (k: int)
    requires Chunked(c, cuts, m, s) && |cuts| >= 2 && cuts[0] < p < cuts[|cuts| - 1] && c.Less(s[p], s[p - 1])
    ensures 0 < k < |cuts| && cuts[k] == p
  {
    var i := ChunkOf(cuts, p - 1);
    assert IsRun(c, cuts, i, s);
    k := i + 1;
    if p < cuts[k] {
      NoDescentInside(c, s, cuts[i], cuts[k], p);
      assert false;
    }
  }

  lemma NoDescentInside<T(!new)>(c: Order<T>, s: seq<T>, lo: int, hi: int, p: int)
    requires 0 <= lo < p < hi <= |s| && c.Sorted(s[lo..hi])
    ensures !c.Less(s[p], s[p - 1])
  {
    assert !c.Less(s[lo..hi][p - lo], s[lo..hi][p - 1 - lo]);
  }

  /** Up to a position in the first chunk, and on to the first descent after it, all is sorted. */
  lemma SortedUpTo<T(!new)>(c: Order<T>, cuts: seq<int>, m: int, s: seq<T>, it: int, p: int)
    requires c.StrictWeak() && Chunked(c, cuts, m, s) && |cuts| >= 2 && cuts[0] <= it < cuts[1] && it < p <= |s|
    requires forall t :: it < t < p ==> !c.Less(s[t], s[t - 1])
    ensures c.Sorted(s[cuts[0]..p])
  {
    var r, lo := s[cuts[0]..p], cuts[0];
    assert IsRun(c, cuts, 0, s);
    forall t | 0 < t < |r| ensures !c.Less(r[t], r[t - 1]) {
      if lo + t <= it {
        NoDescentInside(c, s, lo, cuts[1], lo + t);
      } else {
        assert !c.Less(s[lo + t], s[lo + t - 1]);
      }
    }
    NeighboursSorted(c, r);
  }

  lemma MoreThanOneChunk<T(!new)>(c: Order<T>, cuts: seq<int>, m: int, s: seq<T>)
    requires Chunked(c, cuts, m, s)
    ensures |cuts| > 2 ==> cuts[|cuts| - 1] - cuts[0] > m
  {
    if |cuts| > 2 {
      assert cuts[0 + 1] - cuts[0] >= m;
    }
  }

  /** std::is_sorted_until. */
  method IsSortedUntil<T(!new)>(a: array<T>, first: int, last: int, c: Order<T>) returns (p: int)
    requires 0 <= first < last <= a.Length
    ensures first < p <= last
    ensures forall t :: first < t < p ==> !c.Less(a[t], a[t - 1])
    ensures p < last ==> c.Less(a[p], a[p - 1])
  {
    p := first + 1;
    while p < last && !c.Less(a[p], a[p - 1])
      invariant first < p <= last
      invariant forall t :: first < t < p ==> !c.Less(a[t], a[t - 1])
    {
      p := p + 1;
    }
  }

  /** The part of a later pass that finds the next sorted range. It looks for the end of the range
      from its `minSize`-th element on, and always arrives at the end of a chunk. */
  method IdentifyRun<T(!new)>(t: Traits, a: array<T>, begin: int, end: int, remaining: int, minSize: int, c: Order<T>,
                              ghost cuts: seq<int>)
    returns (p: int, n: int, ghost k: int)
    requires c.StrictWeak() && 0 <= begin < end <= a.Length && remaining == end - begin && minSize > 0
    requires Chunked(c, cuts, minSize, a[..]) && |cuts| >= 2 && cuts[0] == begin && cuts[|cuts| - 1] == end
    ensures begin < p <= end && n == p - begin && c.Sorted(a[begin..p])
    ensures 0 < k < |cuts| && cuts[k] == p
    ensures p < end ==> n >= minSize
  {
    if remaining >= minSize {
      var it := begin;
      if !t.randomAccess {
        var d := end - begin;
        if minSize > d / 2 {
          it := end - (d - minSize + 1);
        }
      }
      if it == begin {
        it := begin + (minSize - 1);
      }
      assert it == begin + minSize - 1 < cuts[1];
      p := IsSortedUntil(a, it, end, c);
      n := minSize - 1 + (p - it);
      SortedUpTo(c, cuts, minSize, a[..], it, p);
      assert a[..][begin..p] == a[begin..p];
      if p < end {
        k := DescentIsCut(c, cuts, minSize, a[..], p);
      } else {
        k := |cuts| - 1;
      }
    } else {
      p, n, k := end, remaining, |cuts| - 1;
      MoreThanOneChunk(c, cuts, minSize, a[..]);
      assert IsRun(c, cuts, 0, a[..]);
    }
  }

  // ----- One pass -----

  /** What is sorted at once: as much as the runs cover, or else one block. */
  lemma FirstIs<T(!new)>(randomAccess: bool, c: Order<T>, s: seq<T>, m: int)
    requires s != [] && m == if |s| < 128 then |s| else 128
    ensures var n := WaveSorted(5, c, s, m);
            if n != 0 then FirstSize(c, s) == n <= |s| && First(randomAccess, c, s) == s[..n]
            else FirstSize(c, s) == m && First(randomAccess, c, s) == Blocks(randomAccess, c, s[..m])
  {
    hide Blocks, WaveSorted;
  }

  /** The function handed to the generic driver: sorts as many elements as it can at once. */
  method SortSubRange<T(!new)>(t: Traits, a: array<T>, b: int, remaining: int, c: Order<T>, buf: Buffer<T>)
    returns (next: int, n: int)
    requires c.StrictWeak() && buf.Valid() && buf.first != a && 0 <= b && 0 < remaining && b + remaining <= a.Length
    modifies a, buf.first
    ensures a[..] == Splice(old(a[..]), b, StableSort(c, First(t.randomAccess, c, old(a[b..b + remaining]))))
    ensures next == b + n && n == FirstSize(c, old(a[b..b + remaining]))
    ensures buf.Kept(old(buf.first[..]))
  {
    hide StableSort, Splice, c.StrictWeak, Blocks, WaveSorted, First, FirstSize;
    ghost var was, s := a[..], a[b..b + remaining];
    FirstIs(t.randomAccess, c, s, if remaining < 128 then remaining else 128);
    next, n := TryWaveSort(5, t, a, b, remaining, if remaining < 128 then remaining else 128, c, buf);
    SlicePrefix(was, b, b + remaining, n);
    if next != b {
      return;
    }
    n := if remaining < 128 then remaining else 128;
    assert a[..] == was;
    SlicePrefix(was, b, b + remaining, n);
    next := Sort128(t, a, b, n, c, buf);
  }

  /** The chunks from the `k`-th cut on. */
  lemma ChunkedSuffix<T(!new)>(c: Order<T>, cuts: seq<int>, m: int, s: seq<T>, k: int)
    requires Chunked(c, cuts, m, s) && 0 <= k < |cuts|
    ensures Chunked(c, cuts[k..], m, s)
  {
    var rest := cuts[k..];
    forall i | 0 <= i < |rest| - 1 ensures IsRun(c, rest, i, s) {
      assert IsRun(c, cuts, k + i, s);
    }
    forall i | 0 <= i < |rest| - 2 ensures rest[i + 1] - rest[i] >= m {
      assert cuts[k + i + 1] - cuts[k + i] >= m;
    }
  }

  /** What is ahead of a pass: nothing in particular in the first one, chunks in the others. */
  ghost predicate Ahead<T(!new)>(c: Order<T>, minSize: int, cuts: seq<int>, begin: int, end: int, s: seq<T>) {
    && 0 <= minSize && 0 <= begin <= end <= |s|
    && (0 < minSize ==> Chunked(c, cuts, minSize, s) && cuts[0] == begin && cuts[|cuts| - 1] == end)
  }

  lemma AheadKept<T(!new)>(c: Order<T>, minSize: int, cuts: seq<int>, begin: int, end: int, s: seq<T>, at: int,
                           x: seq<T>)
    requires Ahead(c, minSize, cuts, begin, end, s) && 0 <= at && at + |x| <= begin
    ensures Ahead(c, minSize, cuts, begin, end, Splice(s, at, x))
  {
    if 0 < minSize {
      hide Splice;
      RunsKept(c, cuts, 0, |cuts| - 1, s, at, x);
    }
  }

  /** The elements whose stable sort a pass leads to: later passes take them as they are. */
  function Seen<T(!new)>(randomAccess: bool, c: Order<T>, minSize: int, s: seq<T>): (r: seq<T>)
    ensures |r| == |s|
  {
    if minSize == 0 then Arranged(randomAccess, c, s) else s
  }

  lemma SeenFirst<T(!new)>(randomAccess: bool, c: Order<T>, s: seq<T>, n: int, first: seq<T>, rest: seq<T>)
    requires s != [] && n == FirstSize(c, s) && first == First(randomAccess, c, s) && rest == s[n..]
    ensures Seen(randomAccess, c, 0, s) == first + Seen(randomAccess, c, 0, rest)
  {
    hide FirstSize, First;
  }

  lemma SeenNone<T(!new)>(randomAccess: bool, c: Order<T>, minSize: int, s: seq<T>)
    requires s == []
    ensures Seen(randomAccess, c, minSize, s) == []
  {
  }

  /** One round of the inner loop: finds or makes one more sorted run and records its end. */
  method NextRun<T(!new)>(t: Traits, a: array<T>, begin: int, end: int, remaining: int, minSize: int, c: Order<T>,
                          buf: Buffer<T>, iters: array<int>, cnt: int, ghost cuts0: seq<int>, ghost was: seq<T>,
                          ghost start: int, ghost p0: seq<T>, ghost done0: seq<T>)
    returns (next: int, n: int, ghost cuts: seq<int>, ghost p: seq<T>, ghost done: seq<T>)
    requires c.StrictWeak() && buf.Valid() && buf.first != a && remaining == end - begin > 0
    requires 0 < cnt < iters.Length && iters as object != a && iters as object != buf.first
    requires Ahead(c, minSize, cuts0, begin, end, a[..])
    requires RunsSorted(c, p0, was, start, done0, begin, iters[..], cnt - 1, a[..])
    modifies a, buf.first, iters
    ensures next == begin + n && 0 < n <= remaining && (n < remaining ==> n >= RunSize(minSize))
    ensures RunsSorted(c, p, was, start, done, next, iters[..], cnt, a[..])
    ensures Ahead(c, minSize, cuts, next, end, a[..])
    ensures p + Seen(t.randomAccess, c, minSize, a[next..end])
            == p0 + Seen(t.randomAccess, c, minSize, old(a[begin..end]))
    ensures buf.Kept(old(buf.first[..]))
  {
    hide StableSort, Splice, c.StrictWeak, c.Sorted, RunsSorted, Rearranges, Seen, First, FirstSize;
    ghost var s, it, q, x := a[..], iters[..], [], [];
    cuts := cuts0;
    if minSize == 0 {
      next, n := SortSubRange(t, a, begin, remaining, c, buf);
      q := First(t.randomAccess, c, s[begin..end]);
      x := StableSort(c, q);
      SortRearranges(c, q);
      SpliceOutside(s, begin, x, next, end);
      SeenFirst(t.randomAccess, c, s[begin..end], n, q, a[next..end]);
    } else {
      ghost var k;
      next, n, k := IdentifyRun(t, a, begin, end, remaining, minSize, c, cuts0);
      q, x := a[begin..next], a[begin..next];
      ChunkedSuffix(c, cuts0, minSize, s, k);
      cuts := cuts0[k..];
      WholeSplice(s, begin, next);
      SameRearranges(c, x);
      SeenLater(t.randomAccess, c, minSize, s[begin..end], x, a[next..end]);
    }
    iters[cnt] := next;
    assert iters[..] == it[cnt := next];
    RunRecorded(c, p0, was, start, done0, begin, it, cnt, s, q, next, x, a[..]);
    p, done := p0 + q, done0 + x;
    Regroup(p0, q, Seen(t.randomAccess, c, minSize, a[next..end]));
  }

  lemma SameRearranges<T(!new)>(c: Order<T>, s: seq<T>)
    ensures Rearranges(c, s, s)
  {
  }

  lemma SeenLater<T(!new)>(randomAccess: bool, c: Order<T>, minSize: int, s: seq<T>, first: seq<T>, rest: seq<T>)
    requires minSize != 0 && s == first + rest
    ensures Seen(randomAccess, c, minSize, s) == first + Seen(randomAccess, c, minSize, rest)
  {
  }

  lemma Regroup<T>(x: seq<T>, y: seq<T>, z: seq<T>)
    ensures x + y + z == x + (y + z)
  {
  }

  /** A range sorted in place, and everything around it as it was. */
  ghost predicate SortedInPlace<T(!new)>(c: Order<T>, p: seq<T>, was: seq<T>, now: seq<T>, lo: int, hi: int) {
    0 <= lo <= hi <= |was| && |p| == hi - lo && now == Splice(was, lo, StableSort(c, p))
  }

  lemma SortedRange<T(!new)>(c: Order<T>, p: seq<T>, was: seq<T>, now: seq<T>, lo: int, hi: int)
    requires c.StrictWeak() && SortedInPlace(c, p, was, now, lo, hi)
    ensures 0 <= lo <= hi <= |was| == |now| && |p| == hi - lo
    ensures now[lo..hi] == StableSort(c, p) && now == Splice(was, lo, now[lo..hi]) && now[hi..] == was[hi..]
    ensures c.Sorted(now[lo..hi]) && Rearranges(c, p, now[lo..hi])
  {
    SpliceRead(was, lo, StableSort(c, p), hi);
    SortRearranges(c, p);
  }

  /** Up to 64 runs, merged: one round of the outer loop. */
  method NextGroup<T(!new)>(t: Traits, a: array<T>, begin0: int, end: int, remaining0: int, minSize: int, c: Order<T>,
                            buf: Buffer<T>, ghost cuts0: seq<int>)
    returns (begin: int, remaining: int, cumDist: int, ghost cuts: seq<int>, ghost p: seq<T>)
    requires c.StrictWeak() && buf.Valid() && buf.first != a && remaining0 == end - begin0 > 0
    requires Ahead(c, minSize, cuts0, begin0, end, a[..])
    modifies a, buf.first
    ensures begin0 < begin <= end && remaining == end - begin && cumDist == begin - begin0
    ensures remaining > 0 ==> cumDist >= 64 * RunSize(minSize)
    ensures SortedInPlace(c, p, old(a[..]), a[..], begin0, begin)
    ensures p + Seen(t.randomAccess, c, minSize, a[begin..end]) == Seen(t.randomAccess, c, minSize, old(a[begin0..end]))
    ensures Ahead(c, minSize, cuts, begin, end, a[..])
    ensures buf.Kept(old(buf.first[..]))
  {
    hide StableSort, Splice, c.StrictWeak, c.Sorted, RunsSorted, Ahead, RunsAt, Seen, Rearranges;
    ghost var was, bufWas, done := a[..], buf.first[..], [];
    var iters := new int[MAX_ITERS];
    iters[0] := begin0;
    assert a[..] == was && buf.first[..] == bufWas;
    var cnt := 1;
    begin, remaining, cumDist, cuts, p := begin0, remaining0, 0, cuts0, [];
    StartGroup(c, minSize, was, begin0, end, iters[..], cuts);
    ghost var total := Seen(t.randomAccess, c, minSize, was[begin0..end]);
    while true
      invariant begin0 <= begin < end && remaining == end - begin && cumDist == begin - begin0
      invariant 1 <= cnt < MAX_ITERS && cumDist >= (cnt - 1) * RunSize(minSize)
      invariant Ahead(c, minSize, cuts, begin, end, a[..]) && a.Length == |was|
      invariant RunsSorted(c, p, was, begin0, done, begin, iters[..], cnt - 1, a[..])
      invariant p + Seen(t.randomAccess, c, minSize, a[begin..end]) == total
      invariant buf.Kept(bufWas)
      decreases remaining
    {
      var n;
      begin, n, cuts, p, done := NextRun(t, a, begin, end, remaining, minSize, c, buf, iters, cnt, cuts, was, begin0,
                                         p, done);
      cnt := cnt + 1;
      remaining := remaining - n;
      cumDist := cumDist + n;
      if remaining == 0 || cnt == MAX_ITERS {
        break;
      }
    }
    ghost var s := a[..];
    GroupMade(c, p, was, begin0, done, begin, iters[..], cnt - 1, s);
    MergeSortedRuns(t, a, iters, 0, cnt - 1, c, buf);
    RunsMerged(c, p, was, begin0, done, a[..]);
    SpliceOutside(s, begin0, StableSort(c, done), begin, end);
    AheadKept(c, minSize, cuts, begin, end, s, begin0, StableSort(c, done));
  }

  lemma StartGroup<T(!new)>(c: Order<T>, minSize: int, s: seq<T>, begin: int, end: int, it: seq<int>, cuts: seq<int>)
    requires Ahead(c, minSize, cuts, begin, end, s) && it != [] && it[0] == begin
    ensures RunsSorted(c, [], s, begin, [], begin, it, 0, s) && 0 <= minSize && 0 <= begin <= end <= |s|
  {
    NoRuns(c, s, begin, it);
  }

  lemma GroupMade<T(!new)>(c: Order<T>, p: seq<T>, was: seq<T>, vals: int, done: seq<T>, src: int, it: seq<int>,
                           last: int, now: seq<T>)
    requires RunsSorted(c, p, was, vals, done, src, it, last, now)
    ensures RunsAt(c, it, 0, last, now) && it[0] == vals && it[last] == src
    ensures 0 <= vals && src == vals + |done| <= |was| == |now| && now[vals..src] == done
            && now == Splice(was, vals, done)
    ensures |p| == |done| && Rearranges(c, p, done)
  {
    RunsSoFar(c, p, was, vals, done, src, it, last, now);
  }

  /** A range rearranged in place. */
  ghost predicate Rearranged<T(!new)>(c: Order<T>, p: seq<T>, was: seq<T>, now: seq<T>, lo: int, hi: int) {
    && 0 <= lo <= hi <= |was| == |now|
    && now == Splice(was, lo, now[lo..hi])
    && Rearranges(c, p, now[lo..hi])
  }

  /** A pass so far: from `start` to `begin` the range is chunked by `made`, whose chunks all have
      at least `m` elements, and is a rearrangement of `p`. */
  ghost predicate PassSoFar<T(!new)>(c: Order<T>, p: seq<T>, was: seq<T>, start: int, begin: int, made: seq<int>,
                                     m: int, now: seq<T>) {
    && 0 <= start <= begin <= |was| == |now|
    && made != [] && made[0] == start && made[|made| - 1] == begin
    && RunsAt(c, made, 0, |made| - 1, now)
    && (forall i :: 0 <= i < |made| - 1 ==> made[i + 1] - made[i] >= m)
    && Rearranged(c, p, was, now, start, begin)
  }

  /** One more sorted range behind chunks is one more chunk. */
  lemma CutAppended<T(!new)>(c: Order<T>, made: seq<int>, s: seq<T>, begin: int, next: int, now: seq<T>)
    requires made != [] && RunsAt(c, made, 0, |made| - 1, s) && made[|made| - 1] == begin < next <= |s| == |now|
    requires now == Splice(s, begin, now[begin..next]) && c.Sorted(now[begin..next])
    ensures RunsAt(c, made + [next], 0, |made|, now)
  {
    hide Splice, c.Sorted;
    var room := made + [0];
    forall i | 0 <= i < |made| - 1 ensures IsRun(c, room, i, s) {
      assert IsRun(c, made, i, s);
    }
    RunAppended(c, room, |made| - 1, s, now[begin..next]);
    assert room[|made| := next] == made + [next];
  }

  /** One more range sorted behind one that is rearranged. */
  lemma GroupRearranged<T(!new)>(c: Order<T>, p: seq<T>, was: seq<T>, start: int, begin: int, s: seq<T>, q: seq<T>,
                                 next: int, now: seq<T>)
    requires c.StrictWeak() && Rearranged(c, p, was, s, start, begin) && SortedInPlace(c, q, s, now, begin, next)
    ensures Rearranged(c, p + q, was, now, start, next)
  {
    hide Splice, StableSort, c.StrictWeak, c.Sorted;
    SortedRange(c, q, s, now, begin, next);
    GroupSpliced(was, start, begin, s, next, now);
    RearrangesConcat(c, p, s[start..begin], q, now[begin..next]);
  }

  /** One more group sorted behind the others. */
  lemma PassExtended<T(!new)>(c: Order<T>, p: seq<T>, was: seq<T>, start: int, begin: int, made: seq<int>, m: int,
                              s: seq<T>, q: seq<T>, next: int, m': int, now: seq<T>)
    requires c.StrictWeak() && PassSoFar(c, p, was, start, begin, made, m, s)
    requires begin < next && SortedInPlace(c, q, s, now, begin, next) && m' <= m && m' <= next - begin
    ensures PassSoFar(c, p + q, was, start, next, made + [next], m', now)
  {
    hide Splice, StableSort, c.StrictWeak, c.Sorted, RunsAt, Rearranges;
    SortedRange(c, q, s, now, begin, next);
    CutAppended(c, made, s, begin, next, now);
    GroupRearranged(c, p, was, start, begin, s, q, next, now);
    var made' := made + [next];
    forall i | 0 <= i < |made'| - 1 ensures made'[i + 1] - made'[i] >= m' {
      if i < |made| - 1 {
        assert made[i + 1] - made[i] >= m;
      }
    }
  }

  lemma GroupSpliced<T>(was: seq<T>, start: int, begin: int, s: seq<T>, next: int, now: seq<T>)
    requires 0 <= start <= begin <= next <= |was| == |s| == |now|
    requires s == Splice(was, start, s[start..begin]) && now == Splice(s, begin, now[begin..next])
    ensures now == Splice(was, start, now[start..next])
    ensures now[start..next] == s[start..begin] + now[begin..next]
  {
    hide Splice;
    SpliceTwice(was, start, s[start..begin], now[begin..next]);
    SpliceRead(was, start, s[start..begin] + now[begin..next], next);
  }

  /** One pass over the whole range: afterwards it is made of the groups' chunks. If there is more
      than one, all but the last have at least 64 times the elements of the runs before. */
  method OnePass<T(!new)>(t: Traits, a: array<T>, start: int, end: int, size: int, minSize: int, c: Order<T>,
                          buf: Buffer<T>, ghost cuts0: seq<int>)
    returns (lastStart: int, newMinSize: int, ghost made: seq<int>)
    requires c.StrictWeak() && buf.Valid() && buf.first != a && size == end - start && 0 < size <= SIZE_MAX
    requires Ahead(c, minSize, cuts0, start, end, a[..])
    modifies a, buf.first
    ensures var p := Seen(t.randomAccess, c, minSize, old(a[start..end]));
            && (lastStart == start ==> SortedInPlace(c, p, old(a[..]), a[..], start, end))
            && (lastStart != start ==> Rearranged(c, p, old(a[..]), a[..], start, end))
    ensures lastStart != start ==>
              64 * RunSize(minSize) <= newMinSize < size && Ahead(c, newMinSize, made, start, end, a[..])
    ensures buf.Kept(old(buf.first[..]))
  {
    hide StableSort, Splice, c.StrictWeak, c.Sorted, Ahead, PassSoFar, Rearranges, SortedInPlace, Seen;
    var remaining, begin := size, start;
    lastStart, newMinSize, made := start, SIZE_MAX, [start];
    ghost var was, bufWas, cuts, p := a[..], buf.first[..], cuts0, [];
    StartPass(c, minSize, was, start, end, cuts0);
    ghost var total := Seen(t.randomAccess, c, minSize, was[start..end]);
    while true
      invariant start <= begin < end && remaining == end - begin && a.Length == |was|
      invariant Ahead(c, minSize, cuts, begin, end, a[..]) && buf.Kept(bufWas)
      invariant PassSoFar(c, p, was, start, begin, made, newMinSize, a[..])
      invariant p + Seen(t.randomAccess, c, minSize, a[begin..end]) == total
      invariant begin == start ==> newMinSize == SIZE_MAX && made == [start]
      invariant begin > start ==> 64 * RunSize(minSize) <= newMinSize <= begin - start
      decreases remaining
    {
      var cumDist;
      ghost var s, b, q := a[..], begin, [];
      begin, remaining, cumDist, cuts, q := NextGroup(t, a, begin, end, remaining, minSize, c, buf, cuts);
      Regroup(p, q, Seen(t.randomAccess, c, minSize, a[begin..end]));
      lastStart := begin - cumDist;
      if remaining == 0 {
        SeenNone(t.randomAccess, c, minSize, a[begin..end]);
        assert p + q == total;
        EndPass(c, p, was, start, b, made, newMinSize, s, q, end, a[..]);
        if newMinSize == SIZE_MAX {
          newMinSize := if newMinSize < cumDist then newMinSize else cumDist;
        }
        made := made + [begin];
        break;
      }
      var m := newMinSize;
      newMinSize := if newMinSize < cumDist then newMinSize else cumDist;
      PassExtended(c, p, was, start, b, made, m, s, q, begin, newMinSize, a[..]);
      made, p := made + [begin], p + q;
    }
  }

  lemma StartPass<T(!new)>(c: Order<T>, minSize: int, s: seq<T>, start: int, end: int, cuts: seq<int>)
    requires Ahead(c, minSize, cuts, start, end, s)
    ensures PassSoFar(c, [], s, start, start, [start], SIZE_MAX, s) && 0 <= minSize && 0 <= start <= end <= |s|
  {
    NoSplice(s, start);
  }

  /** What a pass leaves when its last group is done. */
  lemma EndPass<T(!new)>(c: Order<T>, p: seq<T>, was: seq<T>, start: int, begin: int, made: seq<int>, m: int, s: seq<T>,
                         q: seq<T>, end: int, now: seq<T>)
    requires c.StrictWeak() && PassSoFar(c, p, was, start, begin, made, m, s)
    requires begin < end && SortedInPlace(c, q, s, now, begin, end)
    ensures begin == start ==> SortedInPlace(c, p + q, was, now, start, end)
    ensures 0 < m ==> Rearranged(c, p + q, was, now, start, end) && Ahead(c, m, made + [end], start, end, now)
  {
    if begin == start {
      NoSplice(was, start);
      assert s[start..begin] == [] && p + q == q;
    }
    SortedRange(c, q, s, now, begin, end);
    CutAppended(c, made, s, begin, end, now);
    GroupRearranged(c, p, was, start, begin, s, q, end, now);
    hide Splice, StableSort, c.StrictWeak, c.Sorted, RunsAt, Rearranges;
    var cuts := made + [end];
    forall i | 0 <= i < |cuts| - 2 ensures cuts[i + 1] - cuts[i] >= m {
      assert made[i + 1] - made[i] >= m;
    }
  }

  // ----- The whole sort -----

  /** generic_merge_sort_internal: passes over the range until one group takes it all. Each pass
      needs at most a 64th of the groups of the one before. */
  method GenericMergeSort<T(!new)>(t: Traits, a: array<T>, start: int, end: int, size: int, c: Order<T>, buf: Buffer<T>,
                                   minSize: int, ghost cuts: seq<int>)
    requires c.StrictWeak() && buf.Valid() && buf.first != a && size == end - start && 0 < size <= SIZE_MAX
             && minSize < size
    requires Ahead(c, minSize, cuts, start, end, a[..])
    modifies a, buf.first
    ensures SortedInPlace(c, Seen(t.randomAccess, c, minSize, old(a[start..end])), old(a[..]), a[..], start, end)
    ensures buf.Kept(old(buf.first[..]))
    decreases size - minSize
  {
    hide StableSort, Splice, c.StrictWeak, c.Sorted, Chunked, SortedInPlace, Rearranged;
    ghost var was := a[..];
    var lastStart, newMinSize;
    ghost var made;
    lastStart, newMinSize, made := OnePass(t, a, start, end, size, minSize, c, buf, cuts);
    if lastStart != start {
      ghost var s := a[..];
      GenericMergeSort(t, a, start, end, size, c, buf, newMinSize, made);
      SortedLater(c, Seen(t.randomAccess, c, minSize, was[start..end]), was, s, a[..], start, end);
    }
  }

  lemma SortedLater<T(!new)>(c: Order<T>, p: seq<T>, was: seq<T>, s: seq<T>, now: seq<T>, lo: int, hi: int)
    requires Rearranged(c, p, was, s, lo, hi) && SortedInPlace(c, s[lo..hi], s, now, lo, hi)
    ensures SortedInPlace(c, p, was, now, lo, hi)
  {
    SpliceOver(was, lo, StableSort(c, p), lo, s[lo..hi]);
  }

  /** merge_sort_internal. */
  method MergeSortInternal<T(!new)>(t: Traits, a: array<T>, begin: int, size: int, c: Order<T>, buf: Buffer<T>)
    requires c.StrictWeak() && buf.Valid() && buf.first != a && 0 <= begin && 0 <= size <= SIZE_MAX
             && begin + size <= a.Length
    modifies a, buf.first
    ensures SortedInPlace(c, Arranged(t.randomAccess, c, old(a[begin..begin + size])), old(a[..]), a[..],
                          begin, begin + size)
    ensures buf.Kept(old(buf.first[..]))
  {
    hide StableSort, Splice, c.StrictWeak, Blocks, WaveSorted, Arranged;
    ghost var s := a[begin..begin + size];
    if size < 128 {
      var end, dist := TryWaveSort(5, t, a, begin, size, size, c, buf);
      if end == begin {
        end := Sort128(t, a, begin, size, c, buf);
      }
      AllAtOnce(t.randomAccess, c, s);
      return;
    }
    GenericMergeSort(t, a, begin, begin + size, size, c, buf, 0, []);
  }

  /** Fewer than 128 elements are sorted at once. */
  lemma AllAtOnce<T(!new)>(randomAccess: bool, c: Order<T>, s: seq<T>)
    requires |s| < 128
    ensures Arranged(randomAccess, c, s) == if WaveSorted(5, c, s, |s|) != 0 then s else Blocks(randomAccess, c, s)
    ensures WaveSorted(5, c, s, |s|) == 0 || WaveSorted(5, c, s, |s|) == |s|
  {
    hide Blocks, WaveSorted;
    if s == [] {
      NoBlocks(randomAccess, c, s);
    } else {
      assert s[..|s|] == s;
      assert Arranged(randomAccess, c, s[FirstSize(c, s)..]) == [];
    }
  }

  /** The buffer argument of the public functions: scratch space of the caller's, or the size field
      of a `buffer<void*>`, which stands for a fraction of the input size. */
  datatype BufferArgument<T(!new)> = Provided(buf: Buffer<T>) | Sized(size: nat)

  const DEFAULT_BUFFER := 0
  const MEDIUM_BUFFER := SIZE_MAX - 1
  const SMALL_BUFFER := SIZE_MAX - 2
  const TINY_BUFFER := SIZE_MAX - 3
  const NULL_BUFFER := 0

  /** sort_buffer_size: how many elements to allocate for `count` elements to merge. */
  function SortBufferSize(size: nat, count: nat): nat {
    if size == DEFAULT_BUFFER then count
    else if size == MEDIUM_BUFFER then count / 8
    else if size == SMALL_BUFFER then count / 32
    else count / 128
  }

  /** How many elements net_sort_size allocates as a buffer. */
  function Allocated<T(!new)>(size: nat, arg: BufferArgument<T>): nat {
    if size < 16 || arg.Provided? then 0
    else if SortBufferSize(arg.size, size / 2) < 16 then 16
    else SortBufferSize(arg.size, size / 2)
  }

  /** The documented parts of the input size; but the null buffer stands for as much as the default one. */
  lemma BufferSizes(size: nat)
    ensures SortBufferSize(DEFAULT_BUFFER, size / 2) == size / 2
    ensures SortBufferSize(MEDIUM_BUFFER, size / 2) == size / 16
    ensures SortBufferSize(SMALL_BUFFER, size / 2) == size / 64
    ensures SortBufferSize(TINY_BUFFER, size / 2) == size / 256
    ensures SortBufferSize(NULL_BUFFER, size / 2) == size / 2
  {
  }

  /** Nothing is taken exactly if there are few elements or the caller provides the buffer. */
  lemma AllocatesNothingIff<T(!new)>(size: nat, arg: BufferArgument<T>)
    ensures Allocated(size, arg) == 0 <==> size < 16 || arg.Provided?
  {
  }

  /** The documentation says of the null buffer that the sort does without memory. It allocates. */
  lemma NullBufferAllocates(size: nat)
    requires size >= 16
    ensures Allocated<int>(size, Sized(NULL_BUFFER)) == Allocated<int>(size, Sized(DEFAULT_BUFFER)) >= 16
    ensures size >= 32 ==> Allocated<int>(size, Sized(NULL_BUFFER)) == size / 2
  {
  }

  /** net_sort_size: for every size, strict weak order and buffer of any size, leaves the same. */
  method NetSortSize<T(!new, 0)>(t: Traits, a: array<T>, begin: int, size: int, c: Order<T>, arg: BufferArgument<T>)
    returns (taken: nat)
    requires c.StrictWeak() && 0 <= begin && 0 <= size <= SIZE_MAX && begin + size <= a.Length
    requires arg.Provided? ==> arg.buf.Valid() && arg.buf.first != a
    modifies a, if arg.Provided? then {arg.buf.first} else {}
    ensures a[..] == Splice(old(a[..]), begin, NetSorted(t.randomAccess, c, old(a[begin..begin + size])))
    ensures arg.Provided? ==> arg.buf.Kept(old(arg.buf.first[..]))
    ensures taken == Allocated(size, arg)
  {
    hide StableSort, Splice, c.StrictWeak, Arranged;
    ghost var was := a[..];
    taken := 0;
    if size < 16 {
      var end := InsertionSort(a, begin, size, c);
      return;
    }
    if arg.Sized? {
      var bufSize := SortBufferSize(arg.size, size / 2);
      if bufSize < 16 {
        bufSize := 16;
      }
      var scratch := new T[bufSize];
      taken := scratch.Length;
      assert a[..] == was;
      MergeSortInternal(t, a, begin, size, c, Buffer(scratch, bufSize));
    } else {
      MergeSortInternal(t, a, begin, size, c, arg.buf);
    }
  }
}
