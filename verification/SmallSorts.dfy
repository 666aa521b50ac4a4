/** The sorts for short or already ordered ranges: insertion_sort_n and reverse_sort of
    seq/algorithm.hpp. */
module SmallSorts {
  import opened Ordering
  import opened StableSorting
  import opened Ranges

  /** Where one more element goes in a sorted sequence: behind everything not greater. */
  lemma InsertAt<T(!new)>(c: Order<T>, p1: seq<T>, p2: seq<T>, x: T)
    requires c.AllLeq(p1, [x]) && c.AllLess([x], p2)
    ensures Merge(c, p1 + p2, [x]) == p1 + [x] + p2
  {
    hide Merge;
    MergeSplit(c, p1, p2, [], [x]);
    MergeNone(c, p1, []);
    MergeExchange(c, p2, [x]);
    assert [] + [x] == [x];
  }

  lemma InsertionPoint<T(!new)>(c: Order<T>, p: seq<T>, i: int, x: T)
    requires c.StrictWeak() && c.Sorted(p) && 0 <= i <= |p|
    requires 0 < i ==> !c.Less(x, p[i - 1])
    requires forall t :: i <= t < |p| ==> c.Less(x, p[t])
    ensures c.AllLeq(p[..i], [x]) && c.AllLess([x], p[i..])
  {
    forall t | 0 <= t < i ensures !c.Less(x, p[t]) {
      if t < i - 1 {
        c.LeqTransitive(x, p[i - 1], p[t]);
      }
    }
  }

  lemma InsertNext<T(!new)>(c: Order<T>, s: seq<T>, k: int, p: seq<T>, i: int)
    requires c.StrictWeak() && 0 <= k < |s| && 0 <= i <= |p|
    requires p == StableSort(c, s[..k])
    requires 0 < i ==> !c.Less(s[k], p[i - 1])
    requires forall t :: i <= t < |p| ==> c.Less(s[k], p[t])
    ensures StableSort(c, s[..k + 1]) == p[..i] + [s[k]] + p[i..]
  {
    SortSorted(c, s[..k]);
    InsertionPoint(c, p, i, s[k]);
    hide Merge, c.StrictWeak, c.Sorted, c.AllLeq, c.AllLess;
    InsertAt(c, p[..i], p[i..], s[k]);
    assert p[..i] + p[i..] == p && s[..k + 1][..k] == s[..k];
  }

  lemma Shifted<T>(d: seq<T>, sift: int, cur: int, now: seq<T>)
    requires 0 <= sift <= cur < |d| == |now| && now[sift] == d[cur]
    requires forall t :: sift < t <= cur ==> now[t] == d[t - 1]
    requires forall t :: 0 <= t < |d| && !(sift <= t <= cur) ==> now[t] == d[t]
    ensures now == Splice(d, sift, [d[cur]] + d[sift..cur])
  {
    IsSplice(d, sift, cur + 1, now);
    assert now[sift..cur + 1] == [d[cur]] + d[sift..cur];
  }

  /** The sift of insertion_sort_n: moves the element at `cur` down to its place. */
  method Sift<T(!new)>(c: Order<T>, a: array<T>, begin: int, cur: int) returns (sift: int)
    requires 0 <= begin < cur < a.Length && c.Less(a[cur], a[cur - 1])
    modifies a
    ensures begin <= sift < cur
    ensures begin < sift ==> !c.Less(old(a[cur]), old(a[sift - 1]))
    ensures forall t :: sift <= t < cur ==> c.Less(old(a[cur]), old(a[t]))
    ensures a[..] == Splice(old(a[..]), sift, [old(a[cur])] + old(a[sift..cur]))
  {
    hide Splice;
    ghost var d := a[..];
    var tmp := a[cur];
    sift := cur;
    var prev := cur - 1;
    while true
      invariant begin <= prev == sift - 1 < cur && c.Less(tmp, d[prev])
      invariant forall t :: prev <= t < cur ==> c.Less(tmp, d[t])
      invariant forall t :: sift < t <= cur ==> a[t] == d[t - 1]
      invariant forall t :: 0 <= t < a.Length && !(sift < t <= cur) && t != cur ==> a[t] == d[t]
      decreases sift
    {
      a[sift] := a[prev];
      sift := sift - 1;
      if sift == begin {
        break;
      }
      prev := prev - 1;
      if !c.Less(tmp, a[prev]) {
        break;
      }
    }
    a[sift] := tmp;
    Shifted(d, sift, cur, a[..]);
  }

  /** Splicing a prefix, and then an element into it, is splicing the longer prefix. */
  lemma SpliceInserted<T>(was: seq<T>, lo: int, p: seq<T>, i: int, x: T)
    requires 0 <= lo && 0 <= i <= |p| && lo + |p| < |was| && was[lo + |p|] == x
    ensures Splice(Splice(was, lo, p), lo + i, [x] + p[i..]) == Splice(was, lo, p[..i] + [x] + p[i..])
    ensures i == |p| ==> Splice(was, lo, p) == Splice(was, lo, p[..i] + [x] + p[i..])
  {
  }

  /** insertion_sort_n: a stable sort of `count` elements. */
  method InsertionSort<T(!new)>(a: array<T>, begin: int, count: int, c: Order<T>) returns (end: int)
    requires c.StrictWeak() && 0 <= begin && 0 <= count && begin + count <= a.Length
    modifies a
    ensures a[..] == Splice(old(a[..]), begin, StableSort(c, old(a[begin..begin + count])))
    ensures end == begin + count
  {
    hide Merge, Splice, StableSort, c.StrictWeak, c.Sorted;
    ghost var was, s := a[..], a[begin..begin + count];
    SplicePrefixes(c, was, begin, count);
    if count < 2 {
      return begin + count;
    }
    var cur := begin + 1;
    for n := 1 to count
      invariant cur == begin + n
      invariant a[..] == Splice(was, begin, StableSort(c, s[..n]))
    {
      ghost var p, d := StableSort(c, s[..n]), a[..];
      SpliceRead(was, begin, p, cur);
      assert d[cur] == d[cur..][0] == was[cur..][0] == s[n];
      var i := n;
      if c.Less(a[cur], a[cur - 1]) {
        var sift := Sift(c, a, begin, cur);
        i := sift - begin;
        SliceOfSlice(d, begin, p, i, n);
      }
      InsertedNext(c, was, begin, s, n, d, i);
      cur := cur + 1;
    }
    end := cur;
  }

  /** Before and after the loop of the insertion sort. */
  lemma SplicePrefixes<T(!new)>(c: Order<T>, was: seq<T>, begin: int, count: int)
    requires c.StrictWeak() && 0 <= begin && 0 <= count && begin + count <= |was|
    ensures var s := was[begin..begin + count];
            && s[..count] == s
            && (count < 2 ==> Splice(was, begin, StableSort(c, s)) == was)
            && (0 < count ==> Splice(was, begin, StableSort(c, s[..1])) == was)
  {
    var s := was[begin..begin + count];
    if 0 < count {
      SortOfSorted(c, s[..1]);
    }
  }

  /** One step of the insertion sort. */
  lemma InsertedNext<T(!new)>(c: Order<T>, was: seq<T>, begin: int, s: seq<T>, n: int, d: seq<T>, i: int)
    requires c.StrictWeak() && 0 <= begin && begin + |s| <= |was| && was[begin..begin + |s|] == s
    requires 0 < n < |s| && 0 <= i <= n && d == Splice(was, begin, StableSort(c, s[..n]))
    requires 0 < i ==> !c.Less(d[begin + n], d[begin + i - 1])
    requires forall t :: begin + i <= t < begin + n ==> c.Less(d[begin + n], d[t])
    ensures Splice(d, begin + i, [d[begin + n]] + d[begin + i..begin + n])
            == Splice(was, begin, StableSort(c, s[..n + 1]))
    ensures i == n ==> d == Splice(was, begin, StableSort(c, s[..n + 1]))
  {
    var p := StableSort(c, s[..n]);
    hide Merge, StableSort, c.StrictWeak;
    SpliceRead(was, begin, p, begin + n);
    assert d[begin + n] == d[begin + n..][0] == was[begin + n..][0] == s[n];
    assert forall t :: 0 <= t < n ==> p[t] == d[begin..begin + n][t] == d[begin + t];
    InsertNext(c, s, n, p, i);
    SliceOfSlice(d, begin, p, i, n);
    SpliceInserted(was, begin, p, i, s[n]);
  }

  /** Behind a sequence, a sorted group of strictly smaller elements is sorted to its front. */
  lemma SortLowerGroup<T(!new)>(c: Order<T>, p: seq<T>, e: seq<T>)
    requires c.StrictWeak() && c.AllLess(e, p) && c.Sorted(e)
    ensures StableSort(c, p + e) == e + StableSort(c, p)
  {
    var sp := StableSort(c, p);
    SortConcat(c, p, e);
    SortOfSorted(c, e);
    SortPermutes(c, p);
    forall i, j | 0 <= i < |e| && 0 <= j < |sp| ensures c.Less(e[i], sp[j]) {
      assert sp[j] in multiset(sp);
      assert sp[j] in p;
    }
    MergeExchange(c, sp, e);
  }

  /** The state of reverse_sort: of the descending `s`, the elements before `g` are in `done`,
      each group of equivalent ones reversed, so that reversing all gives their stable sort;
      those from `g` on are unchanged and strictly smaller. */
  ghost predicate GroupsReversed<T(!new)>(c: Order<T>, s: seq<T>, g: int, done: seq<T>) {
    && 0 <= g == |done| <= |s|
    && Reversed(done) == StableSort(c, s[..g])
    && c.AllLess(s[g..], s[..g])
  }

  /** Adding a whole group of equivalent elements, itself reversed. */
  lemma ReverseGroup<T(!new)>(c: Order<T>, s: seq<T>, g: int, done: seq<T>, k: int)
    requires c.StrictWeak() && c.Descending(s) && GroupsReversed(c, s, g, done) && g < k <= |s|
    requires forall t :: g < t < k ==> !c.Less(s[t], s[t - 1])
    requires k < |s| ==> c.Less(s[k], s[k - 1])
    ensures GroupsReversed(c, s, k, done + Reversed(s[g..k]))
  {
    var e := s[g..k];
    GroupAbove(c, s, k);
    GroupInside(c, s, g, k);
    hide Merge, c.StrictWeak, c.Descending, c.AllLess, StableSort;
    assert s[..k] == s[..g] + e;
    SortLowerGroup(c, s[..g], e);
    ReversedAppended(done, e);
  }

  lemma ReversedAppended<T>(s: seq<T>, e: seq<T>)
    ensures Reversed(s + Reversed(e)) == e + Reversed(s)
  {
  }

  /** A strict descent separates a descending sequence. */
  lemma GroupAbove<T(!new)>(c: Order<T>, s: seq<T>, k: int)
    requires c.StrictWeak() && c.Descending(s) && 0 < k <= |s|
    requires k < |s| ==> c.Less(s[k], s[k - 1])
    ensures c.AllLess(s[k..], s[..k])
  {
    forall i, j | k <= i < |s| && 0 <= j < k ensures c.Less(s[i], s[j]) {
      if i > k {
        c.LeqLess(s[i], s[k], s[k - 1]);
      }
      if j < k - 1 {
        c.LessLeq(s[i], s[k - 1], s[j]);
      }
    }
  }

  lemma GroupInside<T(!new)>(c: Order<T>, s: seq<T>, g: int, k: int)
    requires c.StrictWeak() && 0 <= g < k <= |s| && c.AllLess(s[g..], s[..g])
    requires forall t :: g < t < k ==> !c.Less(s[t], s[t - 1])
    ensures c.AllLess(s[g..k], s[..g]) && c.Sorted(s[g..k])
  {
    NeighboursSorted(c, s[g..k]);
    forall i, j | 0 <= i < k - g && 0 <= j < g ensures c.Less(s[g..k][i], s[..g][j]) {
      assert s[g..k][i] == s[g..][i];
    }
  }

  lemma GroupBelow<T(!new)>(c: Order<T>, s: seq<T>, g: int, done: seq<T>, j: int)
    requires GroupsReversed(c, s, g, done) && 0 <= j < g < |s|
    ensures c.Less(s[g], s[j])
  {
    assert c.Less(s[g..][0], s[..g][j]);
  }

  /** The range while groups are being reversed. */
  ghost predicate Current<T>(was: seq<T>, first: int, s: seq<T>, done: seq<T>, now: seq<T>) {
    && 0 <= first && first + |s| <= |was| && |done| <= |s|
    && now == Splice(was, first, done + s[|done|..])
  }

  lemma CurrentTail<T>(was: seq<T>, first: int, s: seq<T>, done: seq<T>, now: seq<T>)
    requires Current(was, first, s, done, now)
    ensures |now| == |was| && forall t :: |done| <= t < |s| ==> now[first + t] == s[t]
    ensures done == s ==> now == Splice(was, first, s)
  {
    assert s + [] == s;
  }

  lemma CurrentReversed<T>(was: seq<T>, first: int, s: seq<T>, done: seq<T>, now: seq<T>, k: int)
    requires Current(was, first, s, done, now) && |done| < k <= |s|
    ensures var done' := done + Reversed(s[|done|..k]);
            var now' := Splice(now, first + |done|, Reversed(now[first + |done|..first + k]));
            && Current(was, first, s, done', now')
            && now'[first + k - 1] == s[|done|]
            && (k == |done| + 1 ==> now' == now)
            && (k == |s| ==> now' == Splice(was, first, done'))
  {
    hide Splice, Reversed;
    var at, part, rest := first + |done|, s[|done|..k], s[k..];
    CurrentTail(was, first, s, done, now);
    assert now[at..first + k] == part;
    assert done + s[|done|..] == done + part + rest;
    var r, done' := Reversed(part), done + Reversed(part);
    SpliceAgain(was, first, done, part, rest, r);
    SpliceRead(now, at, r, at + |r|);
    assert Splice(now, at, r)[at..at + |r|][|r| - 1] == r[|r| - 1];
    assert k == |s| ==> done' + rest == done';
    assert k == |done| + 1 ==> r == part;
  }

  lemma SpliceAgain<T>(s: seq<T>, lo: int, x: seq<T>, y: seq<T>, z: seq<T>, y': seq<T>)
    requires 0 <= lo && lo + |x| + |y| + |z| <= |s| && |y'| == |y|
    ensures Splice(Splice(s, lo, x + y + z), lo + |x|, y') == Splice(s, lo, x + y' + z)
  {
  }

  lemma StartReversing<T(!new)>(c: Order<T>, was: seq<T>, first: int, s: seq<T>)
    requires 0 <= first && first + |s| <= |was| && was[first..first + |s|] == s
    ensures GroupsReversed(c, s, 0, []) && Current(was, first, s, [], was)
  {
    assert [] + s[0..] == s;
  }

  /** reverse_sort: the stable sort of a descending range, by reversing each group of equivalent
      elements and then the whole. */
  method ReverseSort<T(!new)>(a: array<T>, first: int, end: int, c: Order<T>)
    requires c.StrictWeak() && 0 <= first <= end <= a.Length
    requires c.Descending(a[first..end])
    modifies a
    ensures a[..] == Splice(old(a[..]), first, StableSort(c, old(a[first..end])))
  {
    hide StableSort, c.StrictWeak, c.Descending, Splice, GroupsReversed, Current;
    ghost var was, s := a[..], a[first..end];
    if first == end {
      SplicePrefixes(c, was, first, 0);
      return;
    }
    var start, prev, begin := first, first, first + 1;
    ghost var done := [];
    StartReversing(c, was, first, s);
    while begin != end
      invariant start < begin <= end && prev == begin - 1
      invariant GroupsReversed(c, s, |done|, done) && Current(was, first, s, done, a[..])
      invariant |done| == prev - start || |done| == begin - start
      invariant |done| == begin - start && begin != end ==> c.Less(a[begin], a[prev])
      decreases end - begin
    {
      done, prev, begin := SkipSingles(a, start, prev, begin, end, c, was, s, done);
      if begin == end {
        break;
      }
      var startEqual := prev;
      prev := prev + 1;
      begin := begin + 1;
      done, prev, begin := ReverseEqual(a, start, startEqual, prev, begin, end, c, was, s, done);
    }
    done := LastGroup(c, was, first, s, done, a[..]);
    Reverse(a, start, end);
    FullyReversed(c, was, first, s, done);
  }

  /** The last element, if it is a group of its own. */
  lemma LastGroup<T(!new)>(c: Order<T>, was: seq<T>, first: int, s: seq<T>, done0: seq<T>, now: seq<T>)
    returns (done: seq<T>)
    requires c.StrictWeak() && c.Descending(s) && |done0| >= |s| - 1
    requires GroupsReversed(c, s, |done0|, done0) && Current(was, first, s, done0, now)
    ensures GroupsReversed(c, s, |s|, done) && now == Splice(was, first, done)
  {
    if |done0| < |s| {
      ReverseGroup(c, s, |done0|, done0, |s|);
      CurrentReversed(was, first, s, done0, now, |s|);
      done := done0 + Reversed(s[|done0|..|s|]);
    } else {
      done := done0;
      assert done + s[|s|..] == done;
    }
  }

  lemma FullyReversed<T(!new)>(c: Order<T>, was: seq<T>, first: int, s: seq<T>, done: seq<T>)
    requires 0 <= first && first + |s| <= |was|
    requires GroupsReversed(c, s, |s|, done)
    ensures Splice(Splice(was, first, done), first, Reversed(Splice(was, first, done)[first..first + |s|]))
         == Splice(was, first, StableSort(c, s))
  {
    assert s[..|s|] == s;
    assert Splice(was, first, done)[first..first + |s|] == done;
  }

  /** The part of reverse_sort that finds a whole group of equivalent elements and reverses it. */
  method ReverseEqual<T(!new)>(a: array<T>, start: int, startEqual: int, prev0: int, begin0: int, end: int, c: Order<T>,
                               ghost was: seq<T>, ghost s: seq<T>, ghost done0: seq<T>)
    returns (ghost done: seq<T>, prev: int, begin: int)
    requires c.StrictWeak() && 0 <= start && start + |done0| == startEqual == prev0 - 1 == begin0 - 2
    requires begin0 <= end == start + |s| <= a.Length
    requires c.Descending(s) && !c.Less(a[prev0], a[startEqual])
    requires GroupsReversed(c, s, |done0|, done0) && Current(was, start, s, done0, a[..])
    modifies a
    ensures begin0 <= begin <= end && prev == begin - 1 && |done| == begin - start
    ensures GroupsReversed(c, s, |done|, done) && Current(was, start, s, done, a[..])
    ensures begin < end ==> c.Less(a[begin], a[prev])
  {
    hide StableSort, c.StrictWeak, c.Descending, Splice, GroupsReversed, Current;
    prev, begin := prev0, begin0;
    CurrentTail(was, start, s, done0, a[..]);
    while begin != end && !c.Less(a[begin], a[prev])
      invariant begin0 <= begin <= end && prev == begin - 1
      invariant forall t :: |done0| < t < begin - start ==> !c.Less(s[t], s[t - 1])
    {
      prev := begin;
      begin := begin + 1;
    }
    ghost var k, g := begin - start, |done0|;
    ReverseGroup(c, s, g, done0, k);
    CurrentReversed(was, start, s, done0, a[..], k);
    Reverse(a, startEqual, begin);
    done := done0 + Reversed(s[g..k]);
    CurrentTail(was, start, s, done, a[..]);
    if k < |s| {
      GroupBelow(c, s, k, done, g);
    }
  }

  /** The loop of reverse_sort over elements strictly less than the one before. */
  method SkipSingles<T(!new)>(a: array<T>, start: int, prev0: int, begin0: int, end: int, c: Order<T>,
                              ghost was: seq<T>, ghost s: seq<T>, ghost done0: seq<T>)
    returns (ghost done: seq<T>, prev: int, begin: int)
    requires c.StrictWeak() && 0 <= start < begin0 < end == start + |s| <= a.Length && prev0 == begin0 - 1
    requires c.Descending(s)
    requires GroupsReversed(c, s, |done0|, done0) && Current(was, start, s, done0, a[..])
    requires |done0| == prev0 - start || |done0| == begin0 - start
    requires |done0| == begin0 - start ==> c.Less(a[begin0], a[prev0])
    ensures begin0 <= begin <= end && prev == begin - 1 && |done| == prev - start
    ensures GroupsReversed(c, s, |done|, done) && Current(was, start, s, done, a[..])
    ensures begin < end ==> !c.Less(a[begin], a[prev])
  {
    hide StableSort, c.StrictWeak, c.Descending, Splice, GroupsReversed, Current;
    done, prev, begin := done0, prev0, begin0;
    while begin != end && c.Less(a[begin], a[prev])
      invariant begin0 <= begin <= end && prev == begin - 1
      invariant GroupsReversed(c, s, |done|, done) && Current(was, start, s, done, a[..])
      invariant |done| == prev - start || |done| == begin - start
      invariant |done| == begin - start ==> begin < end && c.Less(a[begin], a[prev])
      decreases end - begin
    {
      if |done| == prev - start {
        CurrentTail(was, start, s, done, a[..]);
        ReverseGroup(c, s, |done|, done, |done| + 1);
        CurrentReversed(was, start, s, done, a[..], |done| + 1);
        done := done + Reversed(s[|done|..|done| + 1]);
      }
      prev := begin;
      begin := begin + 1;
    }
  }
}
