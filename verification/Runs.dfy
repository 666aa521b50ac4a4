/** Merging a list of adjacent sorted runs: ping_pong_merge_3, ping_pong_merge_4 and
    merge_sorted_runs_with_buffer of seq/algorithm.hpp. */
module Runs {
  import opened Ordering
  import opened StableSorting
  import opened Ranges
  import opened Wrappers
  import opened Bidirectional
  import opened InPlaceMerging

  /** What kind of iterators and elements the sort is instantiated with: random access decides
      which algorithms are compiled in, relocatable elements enable merging from both ends. */
  datatype Traits = Traits(randomAccess: bool, relocatable: bool) {
    predicate Fast() {
      randomAccess && relocatable
    }
  }

  /** A step of a ping-pong merge: two adjacent sorted runs go to another array, merged unless
      they are known to be in order. */
  method MergeOrMove<T(!new)>(t: Traits, inOrder: bool, c: Order<T>, src: array<T>, it0: int, it1: int, it2: int,
                              dst: array<T>, out: int, outEnd: Option<int>) returns (end: int)
    requires c.StrictWeak() && src != dst
    requires 0 <= it0 < it1 < it2 <= src.Length && c.Sorted(src[it0..it1]) && c.Sorted(src[it1..it2])
    requires inOrder == !c.Less(src[it1], src[it1 - 1])
    requires 0 <= out && out + (it2 - it0) <= dst.Length && (outEnd.Some? ==> outEnd.value == out + (it2 - it0))
    modifies dst
    ensures dst[..] == Splice(old(dst[..]), out, StableSort(c, old(src[it0..it2])))
    ensures end == out + (it2 - it0)
  {
    hide Merge, StableSort, c.StrictWeak, c.Sorted, Splice;
    ghost var a, b, was := src[it0..it1], src[it1..it2], dst[..];
    assert src[it0..it2] == a + b;
    if !inOrder {
      MergeIsSort(c, a, b);
      end := MergeMoveBidirectional(Unspecified, t.Fast(), c, src, it0, it1, it1, it2, dst, out, outEnd);
    } else {
      assert b[0] == src[it1] && a[|a| - 1] == src[it1 - 1];
      SortedParts(c, a, b);
      MoveRange(src, it0, it1 - it0, dst, out);
      var mid := out + (it1 - it0);
      MoveRange(src, it1, it2 - it1, dst, mid);
      SpliceTwice(was, out, a, b);
      end := mid + (it2 - it1);
    }
  }

  /** ping_pong_merge_3. */
  method PingPongMerge3<T(!new)>(t: Traits, a: array<T>, it0: int, it1: int, it2: int, it3: int, c: Order<T>,
                                 tmp: Buffer<T>)
    requires c.StrictWeak() && tmp.Valid() && tmp.first != a
    requires 0 <= it0 < it1 < it2 < it3 <= a.Length
    requires c.Sorted(a[it0..it1]) && c.Sorted(a[it1..it2]) && c.Sorted(a[it2..it3])
    modifies a, tmp.first
    ensures a[..] == Splice(old(a[..]), it0, StableSort(c, old(a[it0..it3])))
    ensures tmp.Kept(old(tmp.first[..]))
  {
    hide Merge, StableSort, c.StrictWeak, c.Sorted, Splice;
    ghost var was, x, y, z := a[..], a[it0..it1], a[it1..it2], a[it2..it3];
    ghost var sxy := StableSort(c, x + y);
    assert a[it0..it2] == x + y && a[it0..it3] == x + y + z;
    SortSorted(c, x + y);
    SortOfSorted(c, z);
    SortOfSorts(c, x + y, z);
    if it2 - it0 <= tmp.size {
      var s0 := !c.Less(a[it1], a[it1 - 1]);
      var s1 := !c.Less(a[it2], a[it2 - 1]);
      if s0 && s1 {
        SortedParts(c, x, y);
        SortedParts(c, x + y, z);
        WholeSplice(was, it0, it3);
        return;
      }
      var middle := MergeOrMove(t, s0, c, a, it0, it1, it2, tmp.first, 0, None);
      SpliceRead(old(tmp.first[..]), 0, sxy, tmp.size);
      if c.Less(a[it2], tmp.first[middle - 1]) {
        MergeFromBuffer(t.randomAccess, c, tmp.first, middle, a, it0, it2, it3);
      } else {
        assert z[0] == a[it2] && sxy[|sxy| - 1] == tmp.first[middle - 1];
        SortedParts(c, sxy, z);
        MoveRange(tmp.first, 0, middle, a, it0);
        SpliceSuffix(was, it0, sxy, it2, it3);
      }
    } else {
      MergeThreeInPlace(t, a, it0, it1, it2, it3, c, tmp);
    }
  }

  /** The branch for a buffer that is too small for the first two runs. */
  method MergeThreeInPlace<T(!new)>(t: Traits, a: array<T>, it0: int, it1: int, it2: int, it3: int, c: Order<T>,
                                    tmp: Buffer<T>)
    requires c.StrictWeak() && tmp.Valid() && tmp.first != a
    requires 0 <= it0 < it1 < it2 < it3 <= a.Length
    requires c.Sorted(a[it0..it1]) && c.Sorted(a[it1..it2]) && c.Sorted(a[it2..it3])
    modifies a, tmp.first
    ensures a[..] == Splice(old(a[..]), it0, StableSort(c, old(a[it0..it3])))
    ensures tmp.Kept(old(tmp.first[..]))
  {
    hide Merge, StableSort, c.StrictWeak, c.Sorted, Splice;
    ghost var was, x, y, z := a[..], a[it0..it1], a[it1..it2], a[it2..it3];
    ghost var sxy := StableSort(c, x + y);
    assert a[it0..it2] == x + y && a[it0..it3] == x + y + z;
    SortSorted(c, x + y);
    SortOfSorted(c, z);
    SortOfSorts(c, x + y, z);
    MergeIsSort(c, x, y);
    MergeAdaptive(true, t.randomAccess, c, a, it0, it1 - it0, it1, it2 - it1, it2, tmp);
    SpliceReadAfter(was, it0, sxy, it2, it3);
    MergeAdaptive(true, t.randomAccess, c, a, it0, it2 - it0, it2, it3 - it2, it3, tmp);
    SpliceOver(was, it0, StableSort(c, x + y + z), it0, sxy);
  }

  lemma WholeSplice<T>(s: seq<T>, lo: int, hi: int)
    requires 0 <= lo <= hi <= |s|
    ensures Splice(s, lo, s[lo..hi]) == s
  {
  }

  lemma SpliceSuffix<T>(s: seq<T>, lo: int, x: seq<T>, mid: int, hi: int)
    requires 0 <= lo && lo + |x| == mid <= hi <= |s|
    ensures Splice(s, lo, x) == Splice(s, lo, x + s[mid..hi])
  {
  }

  lemma SpliceReadAfter<T>(s: seq<T>, lo: int, x: seq<T>, mid: int, hi: int)
    requires 0 <= lo && lo + |x| == mid <= hi <= |s|
    ensures Splice(s, lo, x)[lo..mid] == x && Splice(s, lo, x)[mid..hi] == s[mid..hi]
  {
  }

  lemma SpliceReadTwo<T>(s: seq<T>, lo: int, x: seq<T>, y: seq<T>)
    requires 0 <= lo && lo + |x| + |y| <= |s|
    ensures var r := Splice(s, lo, x + y);
            r[lo..lo + |x|] == x && r[lo + |x|..lo + |x| + |y|] == y && r[lo..lo + |x| + |y|] == x + y
  {
  }

  /** ping_pong_merge_4. */
  method PingPongMerge4<T(!new)>(t: Traits, a: array<T>, it0: int, it1: int, it2: int, it3: int, it4: int,
                                 c: Order<T>, tmp: Buffer<T>)
    requires c.StrictWeak() && tmp.Valid() && tmp.first != a
    requires 0 <= it0 < it1 < it2 < it3 < it4 <= a.Length
    requires c.Sorted(a[it0..it1]) && c.Sorted(a[it1..it2]) && c.Sorted(a[it2..it3]) && c.Sorted(a[it3..it4])
    modifies a, tmp.first
    ensures a[..] == Splice(old(a[..]), it0, StableSort(c, old(a[it0..it4])))
    ensures tmp.Kept(old(tmp.first[..]))
  {
    hide Merge, StableSort, c.StrictWeak, c.Sorted, Splice;
    ghost var was, u, v, x, y := a[..], a[it0..it1], a[it1..it2], a[it2..it3], a[it3..it4];
    assert a[it0..it4] == a[it0..it2] + a[it2..it4] && a[it0..it2] == u + v && a[it2..it4] == x + y;
    if it4 - it0 <= tmp.size {
      var s0 := !c.Less(a[it1], a[it1 - 1]);
      var s1 := !c.Less(a[it2], a[it2 - 1]);
      var s2 := !c.Less(a[it3], a[it3 - 1]);
      if s0 && s1 && s2 {
        FourInOrder(c, u, v, x, y);
        WholeSplice(was, it0, it4);
        return;
      }
      MergeFourInBuffer(t, s0, s2, a, it0, it1, it2, it3, it4, c, tmp, u, v, x, y);
    } else {
      MergeFourInPlace(t, a, it0, it1, it2, it3, it4, c, tmp, u, v, x, y);
    }
  }

  lemma FourInOrder<T(!new)>(c: Order<T>, u: seq<T>, v: seq<T>, x: seq<T>, y: seq<T>)
    requires c.StrictWeak() && c.Sorted(u) && c.Sorted(v) && c.Sorted(x) && c.Sorted(y)
    requires u != [] && v != [] && x != [] && y != []
    requires !c.Less(v[0], u[|u| - 1]) && !c.Less(x[0], v[|v| - 1]) && !c.Less(y[0], x[|x| - 1])
    ensures StableSort(c, (u + v) + (x + y)) == (u + v) + (x + y)
  {
    hide Merge, StableSort, c.StrictWeak, c.Sorted;
    SortedParts(c, u, v);
    SortedParts(c, x, y);
    SortedParts(c, u + v, x + y);
  }

  /** The part of ping_pong_merge_4 for a buffer that can hold all runs. */
  method MergeFourInBuffer<T(!new)>(t: Traits, s0: bool, s2: bool, a: array<T>, it0: int, it1: int, it2: int,
                                    it3: int, it4: int, c: Order<T>, tmp: Buffer<T>, ghost u: seq<T>, ghost v: seq<T>,
                                    ghost x: seq<T>, ghost y: seq<T>)
    requires c.StrictWeak() && tmp.Valid() && tmp.first != a
    requires 0 <= it0 < it1 < it2 < it3 < it4 <= a.Length && it4 - it0 <= tmp.size
    requires u == a[it0..it1] && v == a[it1..it2] && x == a[it2..it3] && y == a[it3..it4]
    requires c.Sorted(u) && c.Sorted(v) && c.Sorted(x) && c.Sorted(y)
    requires s0 == !c.Less(a[it1], a[it1 - 1]) && s2 == !c.Less(a[it3], a[it3 - 1])
    modifies a, tmp.first
    ensures a[..] == Splice(old(a[..]), it0, StableSort(c, (u + v) + (x + y)))
    ensures tmp.Kept(old(tmp.first[..]))
  {
    hide Merge, StableSort, c.StrictWeak, c.Sorted, Splice;
    ghost var buf, l, r := tmp.first[..], StableSort(c, u + v), StableSort(c, x + y);
    assert a[it0..it2] == u + v && a[it2..it4] == x + y;
    SortSorted(c, u + v);
    SortSorted(c, x + y);
    SortOfSorts(c, u + v, x + y);
    var middle := MergeOrMove(t, s0, c, a, it0, it1, it2, tmp.first, 0, None);
    var end := MergeOrMove(t, s2, c, a, it2, it3, it4, tmp.first, middle, None);
    SpliceTwice(buf, 0, l, r);
    SpliceRead(buf, 0, l + r, tmp.size);
    SpliceReadTwo(buf, 0, l, r);
    var inOrder := !c.Less(tmp.first[middle], tmp.first[middle - 1]);
    var res := MergeOrMove(t, inOrder, c, tmp.first, 0, middle, end, a, it0, Some(it4));
  }

  /** The part of ping_pong_merge_4 for a buffer that cannot hold all runs. */
  method MergeFourInPlace<T(!new)>(t: Traits, a: array<T>, it0: int, it1: int, it2: int, it3: int, it4: int,
                                   c: Order<T>, tmp: Buffer<T>, ghost u: seq<T>, ghost v: seq<T>, ghost x: seq<T>,
                                   ghost y: seq<T>)
    requires c.StrictWeak() && tmp.Valid() && tmp.first != a
    requires 0 <= it0 < it1 < it2 < it3 < it4 <= a.Length
    requires u == a[it0..it1] && v == a[it1..it2] && x == a[it2..it3] && y == a[it3..it4]
    requires c.Sorted(u) && c.Sorted(v) && c.Sorted(x) && c.Sorted(y)
    modifies a, tmp.first
    ensures a[..] == Splice(old(a[..]), it0, StableSort(c, (u + v) + (x + y)))
    ensures tmp.Kept(old(tmp.first[..]))
  {
    hide Merge, StableSort, c.StrictWeak, c.Sorted, Splice;
    ghost var was, l, r := a[..], StableSort(c, u + v), StableSort(c, x + y);
    SortSorted(c, u + v);
    SortSorted(c, x + y);
    SortOfSorts(c, u + v, x + y);
    MergeIsSort(c, u, v);
    MergeIsSort(c, x, y);
    MergeAdaptive(true, t.randomAccess, c, a, it0, it1 - it0, it1, it2 - it1, it2, tmp);
    SpliceOutside(was, it0, l, it2, it3);
    SpliceOutside(was, it0, l, it3, it4);
    MergeAdaptive(true, t.randomAccess, c, a, it2, it3 - it2, it3, it4 - it3, it4, tmp);
    SpliceTwice(was, it0, l, r);
    SpliceReadTwo(was, it0, l, r);
    MergeAdaptive(true, t.randomAccess, c, a, it0, it2 - it0, it2, it4 - it2, it4, tmp);
    SpliceOver(was, it0, StableSort(c, (u + v) + (x + y)), it0, l + r);
  }

  /** From `start` to `last`, `it` delimits non-empty sorted runs of `s`. */
  ghost predicate RunsAt<T(!new)>(c: Order<T>, it: seq<int>, start: int, last: int, s: seq<T>) {
    && 0 <= start <= last < |it|
    && (forall i :: start <= i <= last ==> 0 <= it[i] <= |s|)
    && (forall i, j :: start <= i < j <= last ==> it[i] < it[j])
    && (forall i :: start <= i < last ==> IsRun(c, it, i, s))
  }

  ghost predicate IsRun<T(!new)>(c: Order<T>, it: seq<int>, i: int, s: seq<T>) {
    0 <= i < |it| - 1 && 0 <= it[i] < it[i + 1] <= |s| && c.Sorted(s[it[i]..it[i + 1]])
  }

  /** Changes before the first of them leave runs as they are. */
  lemma RunsKept<T(!new)>(c: Order<T>, it: seq<int>, start: int, last: int, s: seq<T>, at: int, x: seq<T>)
    requires RunsAt(c, it, start, last, s) && 0 <= at && at + |x| <= it[start]
    ensures RunsAt(c, it, start, last, Splice(s, at, x))
    ensures Splice(s, at, x)[it[start]..it[last]] == s[it[start]..it[last]]
  {
    hide c.Sorted, Splice;
    forall i | start <= i < last ensures IsRun(c, it, i, Splice(s, at, x)) {
      assert IsRun(c, it, i, s);
      SpliceOutside(s, at, x, it[i], it[i + 1]);
    }
    SpliceOutside(s, at, x, it[start], it[last]);
  }

  lemma FourSorts<T(!new)>(c: Order<T>, u: seq<T>, v: seq<T>, x: seq<T>, y: seq<T>)
    requires c.StrictWeak()
    ensures StableSort(c, StableSort(c, u) + StableSort(c, v) + StableSort(c, x) + StableSort(c, y))
            == StableSort(c, u + v + x + y)
    ensures c.Sorted(StableSort(c, u)) && c.Sorted(StableSort(c, v)) && c.Sorted(StableSort(c, x))
            && c.Sorted(StableSort(c, y))
  {
    var su, sv, sx, sy := StableSort(c, u), StableSort(c, v), StableSort(c, x), StableSort(c, y);
    hide StableSort, Merge, c.StrictWeak;
    SortSorted(c, u);
    SortSorted(c, v);
    SortSorted(c, x);
    SortSorted(c, y);
    SortConcat(c, su + sv + sx, sy);
    SortConcat(c, su + sv, sx);
    SortOfSorts(c, u, v);
    SortConcat(c, u + v + x, y);
    SortConcat(c, u + v, x);
    SortOfSorted(c, sx);
    SortOfSorted(c, sy);
  }

  lemma SpliceReadFour<T>(s: seq<T>, lo: int, u: seq<T>, v: seq<T>, x: seq<T>, y: seq<T>)
    requires 0 <= lo && lo + |u| + |v| + |x| + |y| <= |s|
    ensures var r := Splice(s, lo, u + v + x + y);
            && r[lo..lo + |u| + |v| + |x| + |y|] == u + v + x + y
            && r[lo..lo + |u|] == u && r[lo + |u|..lo + |u| + |v|] == v
            && r[lo + |u| + |v|..lo + |u| + |v| + |x|] == x
            && r[lo + |u| + |v| + |x|..lo + |u| + |v| + |x| + |y|] == y
  {
  }

  method MergeTwoRuns<T(!new)>(t: Traits, a: array<T>, it0: int, it1: int, it2: int, c: Order<T>, buf: Buffer<T>)
    requires c.StrictWeak() && buf.Valid() && buf.first != a && 0 <= it0 < it1 < it2 <= a.Length
    requires c.Sorted(a[it0..it1]) && c.Sorted(a[it1..it2])
    modifies a, buf.first
    ensures a[..] == Splice(old(a[..]), it0, StableSort(c, old(a[it0..it2])))
    ensures buf.Kept(old(buf.first[..]))
  {
    hide Merge, StableSort, c.StrictWeak, c.Sorted, Splice;
    ghost var x, y := a[it0..it1], a[it1..it2];
    assert a[it0..it2] == x + y;
    MergeIsSort(c, x, y);
    MergeAdaptive(true, t.randomAccess, c, a, it0, it1 - it0, it1, it2 - it1, it2, buf);
  }

  /** merge_sorted_runs_with_buffer: the runs become the stable sort of all of them. */
  method MergeSortedRuns<T(!new)>(t: Traits, a: array<T>, iters: array<int>, start: int, last: int, c: Order<T>,
                                  buf: Buffer<T>)
    requires c.StrictWeak() && buf.Valid() && buf.first != a
    requires iters as object != a && iters as object != buf.first
    requires RunsAt(c, iters[..], start, last, a[..])
    modifies a, buf.first
    ensures iters[..] == old(iters[..])
    ensures a[..] == Splice(old(a[..]), iters[start], StableSort(c, old(a[iters[start]..iters[last]])))
    ensures buf.Kept(old(buf.first[..]))
    decreases last - start, 1
  {
    hide Merge, StableSort, c.StrictWeak, c.Sorted, Splice;
    var size := last - start;
    if size > 4 {
      MergeQuarters(t, a, iters, start, last, c, buf);
    } else {
      forall i | start <= i < last ensures c.Sorted(a[iters[i]..iters[i + 1]]) {
        assert IsRun(c, iters[..], i, a[..]);
      }
      if size == 4 {
        PingPongMerge4(t, a, iters[start], iters[start + 1], iters[start + 2], iters[start + 3], iters[start + 4], c,
                       buf);
      } else if size == 3 {
        PingPongMerge3(t, a, iters[start], iters[start + 1], iters[start + 2], iters[start + 3], c, buf);
      } else if size == 2 {
        MergeTwoRuns(t, a, iters[start], iters[start + 1], iters[last], c, buf);
      } else {
        OneRun(c, iters[..], start, last, a[..]);
      }
    }
  }

  lemma OneRun<T(!new)>(c: Order<T>, it: seq<int>, start: int, last: int, s: seq<T>)
    requires c.StrictWeak() && RunsAt(c, it, start, last, s) && last <= start + 1
    ensures Splice(s, it[start], StableSort(c, s[it[start]..it[last]])) == s
  {
    if last == start + 1 {
      assert IsRun(c, it, start, s);
    }
    SortOfSorted(c, s[it[start]..it[last]]);
  }

  /** One of the recursive calls of merge_sorted_runs_with_buffer: the runs before `start` have
      become `done`, and the next ones up to `last` are sorted too. */
  method MergeNext<T(!new)>(t: Traits, a: array<T>, iters: array<int>, start: int, last: int, c: Order<T>,
                            buf: Buffer<T>, ghost lo: int, ghost was: seq<T>, ghost done: seq<T>)
    returns (ghost all: seq<T>)
    requires c.StrictWeak() && buf.Valid() && buf.first != a
    requires iters as object != a && iters as object != buf.first
    requires RunsAt(c, iters[..], start, last, was)
    requires 0 <= lo && lo + |done| == iters[start] && a[..] == Splice(was, lo, done)
    modifies a, buf.first
    ensures iters[..] == old(iters[..])
    ensures all == done + StableSort(c, was[iters[start]..iters[last]])
    ensures a[..] == Splice(was, lo, all)
    ensures buf.Kept(old(buf.first[..]))
    decreases last - start, 2
  {
    hide Merge, StableSort, c.StrictWeak, c.Sorted, Splice, IsRun;
    RunsKept(c, iters[..], start, last, was, lo, done);
    MergeSortedRuns(t, a, iters, start, last, c, buf);
    all := done + StableSort(c, was[iters[start]..iters[last]]);
    SpliceTwice(was, lo, done, StableSort(c, was[iters[start]..iters[last]]));
  }

  /** The four recursive calls. */
  method SortQuarters<T(!new)>(t: Traits, a: array<T>, iters: array<int>, k0: int, k1: int, k2: int, k3: int, k4: int,
                               c: Order<T>, buf: Buffer<T>)
    requires c.StrictWeak() && buf.Valid() && buf.first != a
    requires iters as object != a && iters as object != buf.first
    requires RunsAt(c, iters[..], k0, k4, a[..]) && k0 < k1 < k2 < k3 < k4
    modifies a, buf.first
    ensures iters[..] == old(iters[..])
    ensures var s, it := old(a[..]), iters[..];
            a[..] == Splice(s, it[k0], StableSort(c, s[it[k0]..it[k1]]) + StableSort(c, s[it[k1]..it[k2]])
                                       + StableSort(c, s[it[k2]..it[k3]]) + StableSort(c, s[it[k3]..it[k4]]))
    ensures buf.Kept(old(buf.first[..]))
    decreases k4 - k0, 0, 0
  {
    hide Merge, StableSort, c.StrictWeak, c.Sorted, Splice, RunsAt;
    ghost var was, it := a[..], iters[..];
    SubRuns(c, it, k0, k4, was, k0, k1);
    SubRuns(c, it, k0, k4, was, k1, k2);
    SubRuns(c, it, k0, k4, was, k2, k3);
    SubRuns(c, it, k0, k4, was, k3, k4);
    NoSplice(was, it[k0]);
    ghost var done := MergeNext(t, a, iters, k0, k1, c, buf, it[k0], was, []);
    assert done == StableSort(c, was[it[k0]..it[k1]]);
    done := MergeNext(t, a, iters, k1, k2, c, buf, it[k0], was, done);
    done := MergeNext(t, a, iters, k2, k3, c, buf, it[k0], was, done);
    done := MergeNext(t, a, iters, k3, k4, c, buf, it[k0], was, done);
  }

  /** The recursive part of merge_sorted_runs_with_buffer. */
  method MergeQuarters<T(!new)>(t: Traits, a: array<T>, iters: array<int>, start: int, last: int, c: Order<T>,
                                buf: Buffer<T>)
    requires c.StrictWeak() && buf.Valid() && buf.first != a
    requires iters as object != a && iters as object != buf.first
    requires RunsAt(c, iters[..], start, last, a[..]) && last - start > 4
    modifies a, buf.first
    ensures iters[..] == old(iters[..])
    ensures a[..] == Splice(old(a[..]), iters[start], StableSort(c, old(a[iters[start]..iters[last]])))
    ensures buf.Kept(old(buf.first[..]))
    decreases last - start, 0
  {
    hide Merge, StableSort, c.StrictWeak, c.Sorted, Splice, RunsAt;
    var quarter := (last - start) / 4;
    var k1, k2, k3 := start + quarter, start + quarter * 2, start + quarter * 3;
    ghost var was, it := a[..], iters[..];
    SubRuns(c, it, start, last, was, start, k1);
    SubRuns(c, it, start, last, was, k1, k2);
    SubRuns(c, it, start, last, was, k2, k3);
    SubRuns(c, it, start, last, was, k3, last);
    var i0, i1, i2, i3, i4 := iters[start], iters[k1], iters[k2], iters[k3], iters[last];
    SortQuarters(t, a, iters, start, k1, k2, k3, last, c, buf);
    QuartersMerged(c, was, i0, i1, i2, i3, i4, a[..]);
    PingPongMerge4(t, a, i0, i1, i2, i3, i4, c, buf);
  }

  /** Sorting what the quarters have become sorts the whole range. */
  lemma QuartersMerged<T(!new)>(c: Order<T>, s: seq<T>, i0: int, i1: int, i2: int, i3: int, i4: int, now: seq<T>)
    requires c.StrictWeak() && 0 <= i0 <= i1 <= i2 <= i3 <= i4 <= |s|
    requires now == Splice(s, i0, StableSort(c, s[i0..i1]) + StableSort(c, s[i1..i2])
                                  + StableSort(c, s[i2..i3]) + StableSort(c, s[i3..i4]))
    ensures c.Sorted(now[i0..i1]) && c.Sorted(now[i1..i2]) && c.Sorted(now[i2..i3]) && c.Sorted(now[i3..i4])
    ensures Splice(now, i0, StableSort(c, now[i0..i4])) == Splice(s, i0, StableSort(c, s[i0..i4]))
  {
    hide Merge, StableSort, c.StrictWeak, c.Sorted, Splice;
    var u, v, x, y := s[i0..i1], s[i1..i2], s[i2..i3], s[i3..i4];
    var su, sv, sx, sy := StableSort(c, u), StableSort(c, v), StableSort(c, x), StableSort(c, y);
    FourSorts(c, u, v, x, y);
    SpliceReadFour(s, i0, su, sv, sx, sy);
    assert s[i0..i4] == u + v + x + y;
    SpliceOver(s, i0, StableSort(c, u + v + x + y), i0, su + sv + sx + sy);
  }

  lemma SubRuns<T(!new)>(c: Order<T>, it: seq<int>, start: int, last: int, s: seq<T>, i: int, j: int)
    requires RunsAt(c, it, start, last, s) && start <= i <= j <= last
    ensures RunsAt(c, it, i, j, s) && 0 <= i && j < |it|
    ensures 0 <= it[i] <= it[j] <= |s| && (i < j ==> it[i] < it[j])
  {
  }

  /** One more sorted run behind the others. */
  lemma RunAppended<T(!new)>(c: Order<T>, it: seq<int>, last: int, s: seq<T>, x: seq<T>)
    requires RunsAt(c, it, 0, last, s) && last + 1 < |it| && x != [] && it[last] + |x| <= |s| && c.Sorted(x)
    ensures RunsAt(c, it[last + 1 := it[last] + |x|], 0, last + 1, Splice(s, it[last], x))
  {
    var it', s' := it[last + 1 := it[last] + |x|], Splice(s, it[last], x);
    hide c.Sorted, Splice;
    SpliceRead(s, it[last], x, it[last] + |x|);
    forall i | 0 <= i < last ensures IsRun(c, it', i, s') {
      assert IsRun(c, it, i, s);
      SpliceOutside(s, it[last], x, it[i], it[i + 1]);
    }
    assert IsRun(c, it', last, s');
  }

  /** A range was rearranged into runs, and these were merged. */
  lemma RunsMerged<T(!new)>(c: Order<T>, p: seq<T>, was: seq<T>, vals: int, done: seq<T>, now: seq<T>)
    requires 0 <= vals && vals + |done| <= |was| && Rearranges(c, p, done)
    requires now == Splice(Splice(was, vals, done), vals, StableSort(c, done))
    ensures now == Splice(was, vals, StableSort(c, p))
  {
    SpliceOver(was, vals, StableSort(c, done), vals, done);
  }

  /** Part of a range is sorted run by run: `it` delimits the runs, up to the `last`-th, that have
      replaced the elements from `vals` up to `src`. They are a rearrangement of `p`. */
  ghost predicate RunsSorted<T(!new)>(c: Order<T>, p: seq<T>, was: seq<T>, vals: int, done: seq<T>, src: int,
                                      it: seq<int>, last: int, now: seq<T>)
  {
    && 0 <= vals && src == vals + |done| <= |was|
    && now == Splice(was, vals, done)
    && RunsAt(c, it, 0, last, now) && it[0] == vals && it[last] == src
    && Rearranges(c, p, done)
  }

  lemma NoRuns<T(!new)>(c: Order<T>, was: seq<T>, vals: int, it: seq<int>)
    requires 0 <= vals <= |was| && it != [] && it[0] == vals
    ensures RunsSorted(c, [], was, vals, [], vals, it, 0, was)
  {
    NoSplice(was, vals);
  }

  lemma RunsSoFar<T(!new)>(c: Order<T>, p: seq<T>, was: seq<T>, vals: int, done: seq<T>, src: int,
                           it: seq<int>, last: int, now: seq<T>)
    requires RunsSorted(c, p, was, vals, done, src, it, last, now)
    ensures RunsAt(c, it, 0, last, now) && it[0] == vals && it[last] == src
    ensures src == vals + |done| <= |was| == |now| && now[vals..src] == done && now == Splice(was, vals, done)
    ensures now[src..] == was[src..]
    ensures Rearranges(c, p, done)
  {
    SpliceRead(was, vals, done, src);
  }

  /** One more run is sorted behind the others. */
  lemma RunRecorded<T(!new)>(c: Order<T>, p: seq<T>, was: seq<T>, vals: int, done: seq<T>, src: int, it: seq<int>,
                             cnt: int, s: seq<T>, q: seq<T>, next: int, x: seq<T>, now: seq<T>)
    requires c.StrictWeak() && RunsSorted(c, p, was, vals, done, src, it, cnt - 1, s)
    requires 0 < cnt < |it| && src < next <= |s| && |x| == next - src
    requires now == Splice(s, src, x) && c.Sorted(x) && Rearranges(c, q, x)
    ensures RunsSorted(c, p + q, was, vals, done + x, next, it[cnt := next], cnt, now)
  {
    hide StableSort, Splice, c.StrictWeak, c.Sorted, RunsAt;
    RunAppended(c, it, cnt - 1, s, x);
    SpliceTwice(was, vals, done, x);
    RearrangesConcat(c, p, done, q, x);
  }
}
