/** Merging from both ends at once: merge_tails, finish_bidirectional_merge and
    merge_move_bidirectional of seq/algorithm.hpp. */
module Bidirectional {
  import opened Ordering
  import opened StableSorting
  import opened Merging
  import opened Ranges
  import opened Wrappers

  /** The template parameter `Count`: the length of both ranges, if known. */
  datatype Count = Unspecified | Exactly(n: nat)

  /** Leaving the last left element to the end part. */
  lemma CutLeftBack<T(!new)>(c: Order<T>, a: seq<T>, b: seq<T>, i: int, j: int)
    requires c.StrictWeak() && c.Sorted(a) && c.Sorted(b)
    requires Cut(c, a, b, i, j) && 0 < i
    requires 0 < j ==> c.Less(b[j - 1], a[i - 1])
    ensures Cut(c, a, b, i - 1, j)
    ensures Merge(c, a[i - 1..], b[j..]) == [a[i - 1]] + Merge(c, a[i..], b[j..])
  {
    hide Merge, c.StrictWeak;
    forall q | 0 <= q < j ensures c.Less(b[q], a[i - 1]) {
      if q < j - 1 {
        c.LeqLess(b[q], b[j - 1], a[i - 1]);
      }
    }
    MergeSplit(c, [a[i - 1]], a[i..], [], b[j..]);
    MergeNone(c, [a[i - 1]], []);
    assert [a[i - 1]] + a[i..] == a[i - 1..] && [] + b[j..] == b[j..];
  }

  /** Leaving the last right element to the end part. */
  lemma CutRightBack<T(!new)>(c: Order<T>, a: seq<T>, b: seq<T>, i: int, j: int)
    requires c.StrictWeak() && c.Sorted(a) && c.Sorted(b)
    requires Cut(c, a, b, i, j) && 0 < j
    requires 0 < i ==> !c.Less(b[j - 1], a[i - 1])
    ensures Cut(c, a, b, i, j - 1)
    ensures Merge(c, a[i..], b[j - 1..]) == [b[j - 1]] + Merge(c, a[i..], b[j..])
  {
    hide Merge, c.StrictWeak;
    forall p | 0 <= p < i ensures !c.Less(b[j - 1], a[p]) {
      if p < i - 1 {
        c.LeqTransitive(b[j - 1], a[i - 1], a[p]);
      }
    }
    MergeSplit(c, [], a[i..], [b[j - 1]], b[j..]);
    MergeNone(c, [], [b[j - 1]]);
    assert [b[j - 1]] + b[j..] == b[j - 1..] && [] + a[i..] == a[i..];
  }

  /** Two cuts divide a merge into three. */
  lemma TwoCuts<T(!new)>(c: Order<T>, a: seq<T>, b: seq<T>, i: int, j: int, i': int, j': int)
    requires Cut(c, a, b, i, j) && Cut(c, a, b, i', j') && i <= i' && j <= j'
    ensures Merge(c, a, b) == Merge(c, a[..i], b[..j]) + Merge(c, a[i..i'], b[j..j']) + Merge(c, a[i'..], b[j'..])
  {
    hide Merge;
    CutMerge(c, a, b, i', j');
    CutMerge(c, a[..i'], b[..j'], i, j);
    assert a[..i'][..i] == a[..i] && a[..i'][i..] == a[i..i'];
    assert b[..j'][..j] == b[..j] && b[..j'][j..] == b[j..j'];
  }

  /** A merge from `src` to `dst`, written from `out` forwards and from `out + |a| + |b|`
      backwards. The next elements are `first[0]`, `first[1]`, the last ones `second[0]`
      and `second[1]` of the source; here they are counted from the start of their range. */
  datatype Ends<T(!new)> = Ends(src: array<T>, first1: int, first2: int, dst: array<T>, out: int) {

    /** What is neither written at the left nor at the right: left elements `i` to `i'`,
        right ones `j` to `j'`. The destination holds `d`, and held `was` at first. */
    ghost predicate Progress(c: Order<T>, a: seq<T>, b: seq<T>, i: int, j: int, i': int, j': int, was: seq<T>,
                             d: seq<T>) {
      && 0 <= i <= i' <= |a| && 0 <= j <= j' <= |b|
      && Cut(c, a, b, i, j) && Cut(c, a, b, i', j')
      && 0 <= out && out + |a| + |b| <= |d| == |was|
      && d[out..out + i + j] == Merge(c, a[..i], b[..j])
      && d[out + i' + j'..out + |a| + |b|] == Merge(c, a[i'..], b[j'..])
      && d[..out] == was[..out] && d[out + |a| + |b|..] == was[out + |a| + |b|..]
    }

    lemma PutFront(c: Order<T>, a: seq<T>, b: seq<T>, i: int, j: int, i': int, j': int, was: seq<T>, d: seq<T>)
      requires c.StrictWeak() && c.Sorted(a) && c.Sorted(b)
      requires Progress(c, a, b, i, j, i', j', was, d) && i < i' && j < j'
      ensures c.Less(b[j], a[i]) ==> Progress(c, a, b, i, j + 1, i', j', was, d[out + i + j := b[j]])
      ensures !c.Less(b[j], a[i]) ==> Progress(c, a, b, i + 1, j, i', j', was, d[out + i + j := a[i]])
    {
      hide Merge, c.StrictWeak, c.Sorted;
      var x := if c.Less(b[j], a[i]) then b[j] else a[i];
      var d' := d[out + i + j := x];
      assert d'[out..out + i + j + 1] == d[out..out + i + j] + [x];
      assert d'[out + i' + j'..out + |a| + |b|] == d[out + i' + j'..out + |a| + |b|];
      if c.Less(b[j], a[i]) {
        CutRight(c, a, b, i, j);
      } else {
        CutLeft(c, a, b, i, j);
      }
    }

    lemma PutBack(c: Order<T>, a: seq<T>, b: seq<T>, i: int, j: int, i': int, j': int, was: seq<T>, d: seq<T>)
      requires c.StrictWeak() && c.Sorted(a) && c.Sorted(b)
      requires Progress(c, a, b, i, j, i', j', was, d) && i < i' && j < j'
      ensures c.Less(b[j' - 1], a[i' - 1]) ==>
                Progress(c, a, b, i, j, i' - 1, j', was, d[out + i' + j' - 1 := a[i' - 1]])
      ensures !c.Less(b[j' - 1], a[i' - 1]) ==>
                Progress(c, a, b, i, j, i', j' - 1, was, d[out + i' + j' - 1 := b[j' - 1]])
    {
      hide Merge, c.StrictWeak, c.Sorted;
      var x := if c.Less(b[j' - 1], a[i' - 1]) then a[i' - 1] else b[j' - 1];
      var d' := d[out + i' + j' - 1 := x];
      assert d'[out..out + i + j] == d[out..out + i + j];
      assert d'[out + i' + j' - 1..out + |a| + |b|] == [x] + d[out + i' + j'..out + |a| + |b|];
      if c.Less(b[j' - 1], a[i' - 1]) {
        CutLeftBack(c, a, b, i', j');
      } else {
        CutRightBack(c, a, b, i', j');
      }
    }

    lemma Bounds(c: Order<T>, a: seq<T>, b: seq<T>, i: int, j: int, i': int, j': int, was: seq<T>, d: seq<T>)
      requires Progress(c, a, b, i, j, i', j', was, d)
      ensures 0 <= i <= i' <= |a| && 0 <= j <= j' <= |b| && 0 <= out && out + |a| + |b| <= |d| == |was|
    {
    }

    /** The two ranges are where they should be, in an array other than the destination. */
    ghost predicate Holds(a: seq<T>, b: seq<T>)
      reads src
    {
      && src != dst
      && 0 <= first1 <= src.Length - |a| && 0 <= first2 <= src.Length - |b|
      && src[first1..first1 + |a|] == a && src[first2..first2 + |b|] == b
    }

    /** merge_tails: moves the smaller of the two next elements to the left end of the
        output and the greater of the two last ones to the right end. These are different cells, and at
        least two elements are left to go between them. */
    method MergeTails(c: Order<T>, i: int, j: int, i': int, j': int, ghost a: seq<T>, ghost b: seq<T>,
                      ghost was: seq<T>)
      returns (leftOrder: bool, rightOrder: bool, ni: int, nj: int, ni': int, nj': int)
      requires c.StrictWeak() && c.Sorted(a) && c.Sorted(b) && Holds(a, b)
      requires Progress(c, a, b, i, j, i', j', was, dst[..]) && i < i' - 1 && j < j' - 1
      modifies dst
      ensures leftOrder == c.Less(b[j], a[i]) && rightOrder == !c.Less(b[j' - 1], a[i' - 1])
      ensures ni == (if leftOrder then i else i + 1) && nj == (if leftOrder then j + 1 else j)
      ensures ni' == (if rightOrder then i' else i' - 1) && nj' == (if rightOrder then j' - 1 else j')
      ensures Progress(c, a, b, ni, nj, ni', nj', was, dst[..])
      ensures ni + nj == i + j + 1 && ni' + nj' == i' + j' - 1 && ni + nj + 2 <= ni' + nj' && i + j < i' + j' - 1
      ensures forall k :: 0 <= k < dst.Length && k != out + i + j && k != out + i' + j' - 1 ==> dst[k] == old(dst[k])
    {
      hide Progress, Merge, Cut, c.StrictWeak, c.Sorted;
      Bounds(c, a, b, i, j, i', j', was, dst[..]);
      assert src[first1 + i] == a[i] && src[first2 + j] == b[j];
      assert src[first1 + i' - 1] == a[i' - 1] && src[first2 + j' - 1] == b[j' - 1];
      leftOrder := c.Less(src[first2 + j], src[first1 + i]);
      rightOrder := !c.Less(src[first2 + j' - 1], src[first1 + i' - 1]);
      ghost var d := dst[..];
      dst[out + i + j] := src[if leftOrder then first2 + j else first1 + i];
      ghost var e := dst[..];
      assert e == d[out + i + j := if leftOrder then b[j] else a[i]];
      PutFront(c, a, b, i, j, i', j', was, d);
      ni, nj := if leftOrder then i else i + 1, if leftOrder then j + 1 else j;
      dst[out + i' + j' - 1] := src[if rightOrder then first2 + j' - 1 else first1 + i' - 1];
      assert dst[..] == e[out + i' + j' - 1 := if rightOrder then b[j' - 1] else a[i' - 1]];
      PutBack(c, a, b, ni, nj, i', j', was, e);
      ni', nj' := if rightOrder then i' else i' - 1, if rightOrder then j' - 1 else j';
    }

    lemma Start(c: Order<T>, a: seq<T>, b: seq<T>, was: seq<T>)
      requires 0 <= out && out + |a| + |b| <= |was|
      ensures Progress(c, a, b, 0, 0, |a|, |b|, was, was)
    {
      assert a[..0] == [] && b[..0] == [] && a[|a|..] == [] && b[|b|..] == [];
    }

    /** Between two states of the merge, only the cells that the ends have passed were written: from the
        front up to `out + i + j`, and from the back down to `out + i' + j'`. */
    ghost predicate Kept(i0: int, j0: int, i0': int, j0': int, i: int, j: int, i': int, j': int, d: seq<T>, e: seq<T>) {
      && |d| == |e| && i0 + j0 <= i + j && i' + j' <= i0' + j0'
      && forall k :: 0 <= k < |d| && !(out + i0 + j0 <= k < out + i + j) && !(out + i' + j' <= k < out + i0' + j0')
                ==> d[k] == e[k]
    }

    lemma KeptOn(i0: int, j0: int, i0': int, j0': int, i1: int, j1: int, i1': int, j1': int, i: int, j: int, i': int,
                 j': int, d: seq<T>, e: seq<T>, f: seq<T>)
      requires Kept(i0, j0, i0', j0', i1, j1, i1', j1', d, e) && Kept(i1, j1, i1', j1', i, j, i', j', e, f)
      requires i + j <= i' + j'
      ensures Kept(i0, j0, i0', j0', i, j, i', j', d, f)
    {
    }

    /** Merging tails while both ranges have at least two elements left. */
    method TailsToTheEnd(c: Order<T>, i0: int, j0: int, i0': int, j0': int, ghost a: seq<T>, ghost b: seq<T>,
                         ghost was: seq<T>)
      returns (i: int, j: int, i': int, j': int)
      requires c.StrictWeak() && c.Sorted(a) && c.Sorted(b) && Holds(a, b)
      requires Progress(c, a, b, i0, j0, i0', j0', was, dst[..])
      modifies dst
      ensures Progress(c, a, b, i, j, i', j', was, dst[..])
      ensures i0 + j0 + 2 <= i0' + j0' ==> i + j + 2 <= i' + j'
      ensures Kept(i0, j0, i0', j0', i, j, i', j', old(dst[..]), dst[..])
    {
      hide Progress, c.StrictWeak, c.Sorted, Merge;
      i, j, i', j' := i0, j0, i0', j0';
      while i < i' - 1 && j < j' - 1
        invariant Progress(c, a, b, i, j, i', j', was, dst[..])
        invariant i0 + j0 + 2 <= i0' + j0' ==> i + j + 2 <= i' + j'
        invariant Kept(i0, j0, i0', j0', i, j, i', j', old(dst[..]), dst[..])
        decreases i' - i + (j' - j)
      {
        var left, right;
        left, right, i, j, i', j' := MergeTails(c, i, j, i', j', a, b, was);
      }
    }

    /** The part for ranges of unknown length: after a sixteenth of the smaller one, goes on
        from both ends only if the order of the elements looks random. */
    method ProbeOrder(c: Order<T>, dist1: int, dist2: int, ghost a: seq<T>, ghost b: seq<T>, ghost was: seq<T>)
      returns (i: int, j: int, i': int, j': int)
      requires c.StrictWeak() && c.Sorted(a) && c.Sorted(b) && Holds(a, b)
      requires dist1 == |a| > 1 && dist2 == |b| > 1
      requires Progress(c, a, b, 0, 0, dist1, dist2, was, dst[..])
      modifies dst
      ensures Progress(c, a, b, i, j, i', j', was, dst[..]) && i + j + 2 <= i' + j'
      ensures Kept(0, 0, dist1, dist2, i, j, i', j', old(dst[..]), dst[..])
    {
      hide Progress, c.StrictWeak, c.Sorted, Merge;
      var stop := (if dist1 <= dist2 then dist1 else dist2) / 16;
      var order, count := 0, 0;
      var prevLeft, prevRight;
      prevLeft, prevRight, i, j, i', j' := MergeTails(c, 0, 0, dist1, dist2, a, b, was);
      while count < stop && i < i' - 1 && j < j' - 1
        invariant Progress(c, a, b, i, j, i', j', was, dst[..]) && i + j + 2 <= i' + j'
        invariant Kept(0, 0, dist1, dist2, i, j, i', j', old(dst[..]), dst[..])
        decreases i' - i + (j' - j)
      {
        var left, right;
        left, right, i, j, i', j' := MergeTails(c, i, j, i', j', a, b, was);
        order := order + (if left == prevLeft then 1 else 0) + (if right == prevRight then 1 else 0);
        prevLeft, prevRight := left, right;
        count := count + 1;
      }
      if order <= stop + stop / 2 {
        ghost var d, i1, j1, i1', j1' := dst[..], i, j, i', j';
        i, j, i', j' := TailsToTheEnd(c, i, j, i', j', a, b, was);
        KeptOn(0, 0, dist1, dist2, i1, j1, i1', j1', i, j, i', j', old(dst[..]), d, dst[..]);
      }
    }

    /** When one side is used up or the middle is merged, the output is complete. */
    lemma Complete(c: Order<T>, a: seq<T>, b: seq<T>, i: int, j: int, i': int, j': int, was: seq<T>, d: seq<T>)
      requires Progress(c, a, b, i, j, i', j', was, d)
      ensures Splice(d, out + i + j, Merge(c, a[i..i'], b[j..j'])) == Splice(was, out, Merge(c, a, b))
    {
      hide Merge, Cut;
      TwoCuts(c, a, b, i, j, i', j');
      hide Splice;
      SpliceMiddle(was, out, Merge(c, a[..i], b[..j]), Merge(c, a[i..i'], b[j..j']), Merge(c, a[i'..], b[j'..]), d);
    }

    /** Writes what is left between the ends: the merge of it, or one range if the other is used up. */
    method Middle(c: Order<T>, i: int, j: int, i': int, j': int, ghost a: seq<T>, ghost b: seq<T>)
      requires c.StrictWeak() && c.Sorted(a) && c.Sorted(b) && Holds(a, b)
      requires 0 <= i <= i' <= |a| && 0 <= j <= j' <= |b| && 0 <= out && out + |a| + |b| <= dst.Length
      modifies dst
      ensures dst[..] == Splice(old(dst[..]), out + i + j, Merge(c, a[i..i'], b[j..j']))
    {
      hide Merge, c.StrictWeak, c.Sorted, Splice;
      SliceOfSlice(src[..], first1, a, i, i');
      SliceOfSlice(src[..], first2, b, j, j');
      var finishLeft := i' - 1 < i;
      var finishRight := j' - 1 < j;
      if !finishLeft && !finishRight {
        SortedSlice(c, a, i, i');
        SortedSlice(c, b, j, j');
        MergeTo(true, c, src, first1 + i, first1 + i', first2 + j, first2 + j', dst, out + i + j);
      } else if finishLeft {
        MergeNone(c, a[i..i'], b[j..j']);
        MoveRange(src, first2 + j, j' - j, dst, out + i + j);
      } else {
        MergeNone(c, a[i..i'], b[j..j']);
        MoveRange(src, first1 + i, i' - i, dst, out + i + j);
      }
    }

    /** finish_bidirectional_merge: only the cells between the ends are written, so that every cell of the
        output is written once. */
    method Finish(c: Order<T>, i: int, j: int, i': int, j': int, ghost a: seq<T>, ghost b: seq<T>, ghost was: seq<T>)
      requires c.StrictWeak() && c.Sorted(a) && c.Sorted(b) && Holds(a, b)
      requires Progress(c, a, b, i, j, i', j', was, dst[..])
      modifies dst
      ensures dst[..] == Splice(was, out, Merge(c, a, b))
      ensures forall k :: 0 <= k < dst.Length && !(out + i + j <= k < out + i' + j') ==> dst[k] == old(dst[k])
    {
      hide Progress, Merge, Cut, c.StrictWeak, c.Sorted, Splice, Holds;
      Bounds(c, a, b, i, j, i', j', was, dst[..]);
      Complete(c, a, b, i, j, i', j', was, dst[..]);
      ghost var d := dst[..];
      Middle(c, i, j, i', j', a, b);
      SpliceElsewhere(d, out + i + j, Merge(c, a[i..i'], b[j..j']));
    }
  }

  /** merge_forward from two ranges of one array to another array. */
  method MergeTo<T(!new)>(randomAccess: bool, c: Order<T>, src: array<T>, first1: int, last1: int,
                          first2: int, last2: int, dst: array<T>, out: int)
    requires c.StrictWeak() && src != dst
    requires 0 <= first1 <= last1 <= src.Length && 0 <= first2 <= last2 <= src.Length
    requires c.Sorted(src[first1..last1]) && c.Sorted(src[first2..last2])
    requires 0 <= out && out + (last1 - first1) + (last2 - first2) <= dst.Length
    modifies dst
    ensures dst[..] == Splice(old(dst[..]), out, Merge(c, old(src[first1..last1]), old(src[first2..last2])))
  {
    hide Merge, c.StrictWeak, c.Sorted;
    ghost var was, n := dst[..], last1 - first1 + (last2 - first2);
    var v1, v2 := View(src, first1, false), View(src, first2, false);
    assert v1.Read(last1 - first1) == src[first1..last1] && v2.Read(last2 - first2) == src[first2..last2];
    var k := MergeForward(false, randomAccess, c, v1, last1 - first1, v2, last2 - first2, View(dst, out, false));
    WrittenSplice(View(dst, out, false), n, was, View(dst, out, false).Read(n));
  }

  /** merge_move_bidirectional: merges `src[first1..last1]` and `src[first2..last2]` into
      `dst` at `out` and returns the end of the output. `fast` says that iterators are random
      access and elements relocatable. */
  method MergeMoveBidirectional<T(!new)>(count: Count, fast: bool, c: Order<T>, src: array<T>, first1: int, last1: int,
                                         first2: int, last2: int, dst: array<T>, out: int, outEnd: Option<int>)
    returns (res: int)
    requires c.StrictWeak() && src != dst
    requires 0 <= first1 <= last1 <= src.Length && 0 <= first2 <= last2 <= src.Length
    requires c.Sorted(src[first1..last1]) && c.Sorted(src[first2..last2])
    requires 0 <= out && out + (last1 - first1) + (last2 - first2) <= dst.Length
    requires count.Exactly? ==> last1 - first1 == last2 - first2 == count.n
    requires outEnd.Some? ==> outEnd.value == out + (last1 - first1) + (last2 - first2)
    modifies dst
    ensures dst[..] == Splice(old(dst[..]), out, Merge(c, old(src[first1..last1]), old(src[first2..last2])))
    ensures res == out + (last1 - first1) + (last2 - first2)
  {
    ghost var a, b, was := src[first1..last1], src[first2..last2], dst[..];
    var ends := Ends(src, first1, first2, dst, out);
    var dist1, dist2 := last1 - first1, last2 - first2;
    ends.Start(c, a, b, was);
    res := if outEnd.Some? then outEnd.value
           else if count.Exactly? then out + count.n * 2 else out + (dist1 + dist2);
    hide ends.Progress, c.StrictWeak, c.Sorted, Merge, Splice;
    if fast && count.Exactly? {
      var i, j, i', j' := ends.TailsToTheEnd(c, 0, 0, dist1, dist2, a, b, was);
      ends.Finish(c, i, j, i', j', a, b, was);
    } else if fast && 0 < dist1 - 1 && 0 < dist2 - 1 {
      var i, j, i', j' := ends.ProbeOrder(c, dist1, dist2, a, b, was);
      ends.Finish(c, i, j, i', j', a, b, was);
    } else {
      MergeTo(fast, c, src, first1, last1, first2, last2, dst, out);
    }
  }
}
