/** Merging two adjacent ranges in place with whatever buffer there is: merge_with_buffer,
    merge_inplace_left/right_subproblem, rotate_one_right and merge_adaptive_n of
    seq/algorithm.hpp. */
module InPlaceMerging {
  import opened Ordering
  import opened StableSorting
  import opened Ranges
  import opened Merging

  /** The scratch space handed to the sort: only the first `size` cells may be used. */
  datatype Buffer<T(!new)> = Buffer(first: array<T>, size: nat) {
    ghost predicate Valid() {
      size <= first.Length
    }

    /** Nothing behind the buffer has been touched since `was`. */
    ghost predicate Kept(was: seq<T>)
      requires Valid()
      reads first
    {
      |was| == first.Length && first[size..] == was[size..]
    }
  }

  /** merge_backward: merge_forward on reverse iterators with the comparator flipped. */
  method MergeBackward<T(!new)>(overlap: bool, randomAccess: bool, c: Order<T>, left: array<T>, first1: int, last1: int,
                                right: array<T>, first2: int, last2: int, out: array<T>, outEnd: int)
    requires c.StrictWeak()
    requires 0 <= first1 <= last1 <= left.Length && 0 <= first2 <= last2 <= right.Length
    requires (last1 - first1) + (last2 - first2) <= outEnd <= out.Length
    requires c.Sorted(left[first1..last1]) && c.Sorted(right[first2..last2])
    requires right != out
    requires if overlap then left == out && last1 == outEnd - (last2 - first2) else left != out
    modifies out
    ensures out[..] == Splice(old(out[..]), outEnd - (last1 - first1) - (last2 - first2),
                              Merge(c, old(left[first1..last1]), old(right[first2..last2])))
  {
    var v1, v2, vOut := View(left, last1, true), View(right, last2, true), View(out, outEnd, true);
    hide Merge, Splice, Reversed, OnlyCovered, c.StrictWeak, c.Sorted, vOut.Read;
    ghost var a, b, was := left[first1..last1], right[first2..last2], out[..];
    var n1, n2 := last1 - first1, last2 - first2;
    c.FlipStrictWeak();
    ReversedSorted(c, a);
    ReversedSorted(c, b);
    MergeMirrored(c, a, b);
    ReadsReversed(left, last1, n1);
    ReadsReversed(right, last2, n2);
    var k := MergeForward(overlap, randomAccess, c.Flip(), v2, n2, v1, n1, vOut);
    WrittenSplice(vOut, n2 + n1, was, Merge(c, a, b));
  }

  lemma ReadsReversed<T(!new)>(a: array<T>, end: int, n: int)
    requires 0 <= n <= end <= a.Length
    ensures View(a, end, true).Read(n) == Reversed(a[end - n..end])
  {
  }

  lemma ReversedSorted<T(!new)>(c: Order<T>, s: seq<T>)
    requires c.Sorted(s)
    ensures c.Flip().Sorted(Reversed(s))
  {
    var f, r := c.Flip(), Reversed(s);
    forall i, j | 0 <= i < j < |r| ensures !f.Less(r[j], r[i]) {
      c.FlipLess(r[j], r[i]);
      assert !c.Less(s[|s| - 1 - i], s[|s| - 1 - j]);
    }
  }

  /** merge_with_buffer: the smaller range is moved to the buffer and merged from there. */
  method MergeWithBuffer<T(!new)>(randomAccess: bool, c: Order<T>, a: array<T>, first: int, n0: int, middle: int,
                                  n1: int, e1: int, buf: Buffer<T>)
    requires c.StrictWeak() && buf.Valid() && buf.first != a
    requires 0 <= first <= middle <= e1 <= a.Length && n0 == middle - first && n1 == e1 - middle
    requires c.Sorted(a[first..middle]) && c.Sorted(a[middle..e1])
    requires n0 <= buf.size || n1 <= buf.size
    modifies a, buf.first
    ensures a[..] == Splice(old(a[..]), first, Merge(c, old(a[first..middle]), old(a[middle..e1])))
    ensures buf.Kept(old(buf.first[..]))
  {
    hide Merge, c.StrictWeak, c.Sorted, Splice;
    if n0 <= n1 {
      MoveRange(a, first, n0, buf.first, 0);
      SpliceRead(old(buf.first[..]), 0, old(a[first..middle]), buf.size);
      MergeFromBuffer(randomAccess, c, buf.first, n0, a, first, middle, e1);
    } else {
      MoveRange(a, middle, n1, buf.first, 0);
      SpliceRead(old(buf.first[..]), 0, old(a[middle..e1]), buf.size);
      MergeBackward(true, randomAccess, c, a, first, middle, buf.first, 0, n1, a, e1);
    }
  }

  /** merge_forward with the left range in a buffer and the right one in place. */
  method MergeFromBuffer<T(!new)>(randomAccess: bool, c: Order<T>, buf: array<T>, n: int, a: array<T>, first: int,
                                  middle: int, e1: int)
    requires c.StrictWeak() && buf != a
    requires 0 <= first <= middle <= e1 <= a.Length && n == middle - first <= buf.Length
    requires c.Sorted(buf[..n]) && c.Sorted(a[middle..e1])
    modifies a
    ensures a[..] == Splice(old(a[..]), first, Merge(c, old(buf[..n]), old(a[middle..e1])))
  {
    hide Merge, c.StrictWeak, c.Sorted;
    ghost var was := a[..];
    var v1, v2, vOut := View(buf, 0, false), View(a, middle, false), View(a, first, false);
    assert v1.Read(n) == buf[..n] && v2.Read(e1 - middle) == a[middle..e1];
    var k := MergeForward(true, randomAccess, c, v1, n, v2, e1 - middle, vOut);
    WrittenSplice(vOut, e1 - first, was, vOut.Read(e1 - first));
  }

  /** rotate_one_right: moves the last element of a range to its front. */
  method RotateOneRight<T>(a: array<T>, first: int, mid: int, last: int)
    requires 0 <= first <= mid < last <= a.Length && last == mid + 1
    modifies a
    ensures a[..] == Splice(old(a[..]), first, [old(a[mid])] + old(a[first..mid]))
  {
    var tmp := a[mid];
    forall k | first <= k < mid {
      a[k + 1] := a[k];
    }
    a[first] := tmp;
  }

  /** How a merge is divided by a pivot: `x1` and `y1` are merged before it, `x2` and `y2` after. */
  datatype Parts<T(!new)> = Parts(x1: seq<T>, y1: seq<T>, p: T, x2: seq<T>, y2: seq<T>) {

    /** The parts in the order a subproblem routine leaves them in. */
    ghost function All(): seq<T> {
      x1 + y1 + [p] + x2 + y2
    }

    /** Merging the parts on each side of the pivot merges `x` and `y`. */
    ghost predicate Divide(c: Order<T>, x: seq<T>, y: seq<T>) {
      && c.Sorted(x1) && c.Sorted(y1) && c.Sorted(x2) && c.Sorted(y2)
      && |x1| + |y1| + 1 + |x2| + |y2| == |x| + |y|
      && Merge(c, x, y) == Merge(c, x1, y1) + [p] + Merge(c, x2, y2)
    }

    lemma Read(s: seq<T>, lo: int)
      requires 0 <= lo && lo + |All()| <= |s|
      ensures var r := Splice(s, lo, All());
              && r[lo..lo + |x1|] == x1
              && r[lo + |x1|..lo + |x1| + |y1|] == y1
              && r[lo + |x1| + |y1| + 1..lo + |x1| + |y1| + 1 + |x2|] == x2
              && r[lo + |x1| + |y1| + 1 + |x2|..lo + |All()|] == y2
    {
      var r := Splice(s, lo, All());
      SliceOfSlice(r, lo, All(), 0, |x1|);
      SliceOfSlice(r, lo, All(), |x1|, |x1| + |y1|);
      SliceOfSlice(r, lo, All(), |x1| + |y1| + 1, |x1| + |y1| + 1 + |x2|);
      SliceOfSlice(r, lo, All(), |x1| + |y1| + 1 + |x2|, |All()|);
    }

    /** The merges of both sides and the pivot between them are the merge of the whole. */
    lemma Joined(s: seq<T>, lo: int, left: seq<T>, right: seq<T>)
      requires 0 <= lo && lo + |All()| <= |s|
      requires |left| == |x1| + |y1| && |right| == |x2| + |y2|
      ensures Splice(Splice(Splice(s, lo, All()), lo, left), lo + |left| + 1, right)
              == Splice(s, lo, left + [p] + right)
    {
    }
  }

  /** Exchanging the inner two of four adjacent parts. */
  lemma RotatedParts<T>(s: seq<T>, lo: int, w: seq<T>, x: seq<T>, y: seq<T>, z: seq<T>)
    requires 0 <= lo && lo + |w| + |x| + |y| + |z| <= |s|
    requires s[lo..lo + |w| + |x| + |y| + |z|] == w + x + y + z
    ensures Splice(s, lo + |w|, y + x) == Splice(s, lo, w + y + x + z)
  {
    var r := s[lo..lo + |w| + |x| + |y| + |z|];
    assert s[..lo + |w|] == s[..lo] + r[..|w|];
    assert s[lo + |w| + |x| + |y|..] == r[|w| + |x| + |y|..] + s[lo + |r|..];
  }

  /** A pivot that separates both ranges divides their merge. It comes from the left range if
      `left`, otherwise from the right one. */
  lemma MergeAround<T(!new)>(c: Order<T>, left: bool, x1: seq<T>, x2: seq<T>, pivot: T, y1: seq<T>, y2: seq<T>)
    requires c.AllLeq(x1, y2) && c.AllLess(y1, x2)
    requires if left then c.AllLeq([pivot], y2) && c.AllLess(y1, [pivot])
             else c.AllLeq(x1, [pivot]) && c.AllLess([pivot], x2)
    ensures var x := if left then x1 + ([pivot] + x2) else x1 + x2;
            var y := if left then y1 + y2 else y1 + [pivot] + y2;
            Merge(c, x, y) == Merge(c, x1, y1) + [pivot] + Merge(c, x2, y2)
  {
    hide Merge;
    var p := [pivot];
    if left {
      MergeSplit(c, x1, p + x2, y1, y2);
      MergeSplit(c, p, x2, [], y2);
      MergeInOrder(c, p, []);
      assert [] + y2 == y2 && p + [] == p;
    } else {
      MergeSplit(c, x1, x2, y1 + p, y2);
      MergeSplit(c, x1, [], y1, p);
      MergeInOrder(c, [], p);
      assert x1 + [] == x1 && [] + p == p;
    }
  }

  /** merge_inplace_left_subproblem: the pivot is the middle of the left range. */
  method MergeInplaceLeftSubproblem<T(!new)>(c: Order<T>, a: array<T>, f0: int, n0: int, f1: int, n1: int)
    returns (n00: int, f01: int, n01: int, f10: int, n10: int, f11: int, n11: int, ghost parts: Parts<T>)
    requires c.StrictWeak() && 0 <= f0 && n0 > 0 && n1 > 0 && f1 == f0 + n0 && f1 + n1 <= a.Length
    requires c.Sorted(a[f0..f1]) && c.Sorted(a[f1..f1 + n1])
    modifies a
    ensures parts.Divide(c, old(a[f0..f1]), old(a[f1..f1 + n1]))
    ensures n00 == |parts.x1| && n01 == |parts.y1| && n10 == |parts.x2| && n11 == |parts.y2|
    ensures f01 == f0 + n00 && f10 == f01 + n01 + 1 && f11 == f10 + n10
    ensures a[..] == Splice(old(a[..]), f0, parts.All())
  {
    hide Merge, c.StrictWeak, c.Sorted, Splice, Parts<T>.Divide, Parts<T>.All;
    ghost var x, y, was := a[f0..f1], a[f1..f1 + n1], a[..];
    n00 := n0 / 2;
    f01 := f0 + n00;
    var m := LowerBound(c, View(a, f1, false), 0, n1, a[f01], y);
    f11 := f1 + m;
    f10 := Rotate(a, f01, f1, f11);
    n01 := f10 - f01;
    f10 := f10 + 1;
    n10 := n0 - n00 - 1;
    n11 := n1 - n01;
    parts := Parts(x[..n00], y[..m], x[n00], x[n00 + 1..], y[m..]);
    DividedLeft(c, x, y, n00, m);
    PartsInOrder(x, y, n00, m);
    RotatedInside(was, f0, x, y, n00, m, f01, f1, f11);
  }

  lemma DividedLeft<T(!new)>(c: Order<T>, x: seq<T>, y: seq<T>, k: int, m: int)
    requires c.StrictWeak() && c.Sorted(x) && c.Sorted(y) && 0 <= k < |x| && 0 <= m <= |y|
    requires forall t :: 0 <= t < m ==> c.Less(y[t], x[k])
    requires forall t :: m <= t < |y| ==> !c.Less(y[t], x[k])
    ensures Parts(x[..k], y[..m], x[k], x[k + 1..], y[m..]).Divide(c, x, y)
  {
    BelowPivot(c, y, m, x[k], x, k + 1);
    AbovePivot(c, x, k, x[k], y, m);
    assert c.AllLeq([x[k]], y[m..]) && c.AllLess(y[..m], [x[k]]);
    DividedByLeft(c, x[..k], x[k], x[k + 1..], y[..m], y[m..]);
    assert x == x[..k] + ([x[k]] + x[k + 1..]) && y == y[..m] + y[m..];
  }

  lemma DividedByLeft<T(!new)>(c: Order<T>, x1: seq<T>, p: T, x2: seq<T>, y1: seq<T>, y2: seq<T>)
    requires c.AllLeq(x1, y2) && c.AllLess(y1, x2) && c.AllLeq([p], y2) && c.AllLess(y1, [p])
    requires c.Sorted(x1) && c.Sorted(x2) && c.Sorted(y1) && c.Sorted(y2)
    ensures Parts(x1, y1, p, x2, y2).Divide(c, x1 + ([p] + x2), y1 + y2)
  {
    MergeAround(c, true, x1, x2, p, y1, y2);
  }

  lemma DividedRight<T(!new)>(c: Order<T>, x: seq<T>, y: seq<T>, k: int, m: int)
    requires c.StrictWeak() && c.Sorted(x) && c.Sorted(y) && 0 <= k <= |x| && 0 <= m < |y|
    requires forall t :: 0 <= t < k ==> !c.Less(y[m], x[t])
    requires forall t :: k <= t < |x| ==> c.Less(y[m], x[t])
    ensures Parts(x[..k], y[..m], y[m], x[k..], y[m + 1..]).Divide(c, x, y)
  {
    AbovePivot(c, x, k, y[m], y, m + 1);
    AbovePivotStrictly(c, y, m, y[m], x, k);
    assert c.AllLeq(x[..k], [y[m]]) && c.AllLess([y[m]], x[k..]);
    DividedByRight(c, x[..k], x[k..], y[..m], y[m], y[m + 1..]);
    assert x == x[..k] + x[k..] && y == y[..m] + [y[m]] + y[m + 1..];
  }

  lemma DividedByRight<T(!new)>(c: Order<T>, x1: seq<T>, x2: seq<T>, y1: seq<T>, p: T, y2: seq<T>)
    requires c.AllLeq(x1, y2) && c.AllLess(y1, x2) && c.AllLeq(x1, [p]) && c.AllLess([p], x2)
    requires c.Sorted(x1) && c.Sorted(x2) && c.Sorted(y1) && c.Sorted(y2)
    ensures Parts(x1, y1, p, x2, y2).Divide(c, x1 + x2, y1 + [p] + y2)
  {
    MergeAround(c, false, x1, x2, p, y1, y2);
  }

  lemma PartsInOrder<T(!new)>(x: seq<T>, y: seq<T>, k: int, m: int)
    requires 0 <= k <= |x| && 0 <= m <= |y|
    ensures k < |x| ==> Parts(x[..k], y[..m], x[k], x[k + 1..], y[m..]).All() == x[..k] + y[..m] + x[k..] + y[m..]
    ensures m < |y| ==>
              Parts(x[..k], y[..m], y[m], x[k..], y[m + 1..]).All() == x[..k] + y[..m + 1] + x[k..] + y[m + 1..]
  {
  }

  /** What is less than a pivot is less than what is not below the pivot. */
  lemma BelowPivot<T(!new)>(c: Order<T>, y: seq<T>, m: int, p: T, x: seq<T>, k: int)
    requires c.StrictWeak() && 0 <= m <= |y| && 0 <= k <= |x|
    requires forall t :: 0 <= t < m ==> c.Less(y[t], p)
    requires forall t :: k <= t < |x| ==> !c.Less(x[t], p)
    ensures c.AllLess(y[..m], x[k..])
  {
    forall i, j | 0 <= i < m && k <= j < |x| ensures c.Less(y[i], x[j]) {
      c.LessLeq(y[i], p, x[j]);
    }
  }

  lemma AbovePivot<T(!new)>(c: Order<T>, x: seq<T>, k: int, p: T, y: seq<T>, m: int)
    requires c.StrictWeak() && 0 <= k <= |x| && 0 <= m <= |y|
    requires forall t :: 0 <= t < k ==> !c.Less(p, x[t])
    requires forall t :: m <= t < |y| ==> !c.Less(y[t], p)
    ensures c.AllLeq(x[..k], y[m..])
  {
    forall i, j | 0 <= i < k && m <= j < |y| ensures !c.Less(y[j], x[i]) {
      c.LeqTransitive(y[j], p, x[i]);
    }
  }

  lemma AbovePivotStrictly<T(!new)>(c: Order<T>, y: seq<T>, m: int, p: T, x: seq<T>, k: int)
    requires c.StrictWeak() && 0 <= m <= |y| && 0 <= k <= |x|
    requires forall t :: 0 <= t < m ==> !c.Less(p, y[t])
    requires forall t :: k <= t < |x| ==> c.Less(p, x[t])
    ensures c.AllLess(y[..m], x[k..])
  {
    forall i, j | 0 <= i < m && k <= j < |x| ensures c.Less(y[i], x[j]) {
      c.LeqLess(y[i], p, x[j]);
    }
  }

  /** What the rotation in both subproblem routines leaves of two adjacent ranges. */
  lemma RotatedInside<T>(s: seq<T>, f0: int, x: seq<T>, y: seq<T>, k: int, m: int, first: int, mid: int, last: int)
    requires 0 <= f0 && mid == f0 + |x| && mid + |y| <= |s| && s[f0..mid] == x && s[mid..mid + |y|] == y
    requires 0 <= k <= |x| && 0 <= m <= |y| && first == f0 + k && last == mid + m
    ensures Splice(s, first, s[mid..last] + s[first..mid]) == Splice(s, f0, x[..k] + y[..m] + x[k..] + y[m..])
  {
    hide Splice;
    SliceOfSlice(s, f0, x, k, |x|);
    SliceOfSlice(s, f0 + |x|, y, 0, m);
    assert s[f0..f0 + |x| + |y|] == x + y == x[..k] + x[k..] + y[..m] + y[m..];
    RotatedParts(s, f0, x[..k], x[k..], y[..m], y[m..]);
  }

  /** merge_inplace_right_subproblem: the pivot is the middle of the right range. */
  method MergeInplaceRightSubproblem<T(!new)>(c: Order<T>, a: array<T>, f0: int, n0: int, f1: int, n1: int)
    returns (n00: int, f01: int, n01: int, f10: int, n10: int, f11: int, n11: int, ghost parts: Parts<T>)
    requires c.StrictWeak() && 0 <= f0 && n0 > 0 && n1 > 0 && f1 == f0 + n0 && f1 + n1 <= a.Length
    requires c.Sorted(a[f0..f1]) && c.Sorted(a[f1..f1 + n1])
    modifies a
    ensures parts.Divide(c, old(a[f0..f1]), old(a[f1..f1 + n1]))
    ensures n00 == |parts.x1| && n01 == |parts.y1| && n10 == |parts.x2| && n11 == |parts.y2|
    ensures f01 == f0 + n00 && f10 == f01 + n01 + 1 && f11 == f10 + n10
    ensures a[..] == Splice(old(a[..]), f0, parts.All())
  {
    hide Merge, c.StrictWeak, c.Sorted, Splice, Parts<T>.Divide, Parts<T>.All;
    ghost var x, y, was := a[f0..f1], a[f1..f1 + n1], a[..];
    n01 := n1 / 2;
    f11 := f1 + n01;
    var k := UpperBound(c, View(a, f0, false), 0, n0, a[f11], x);
    f01 := f0 + k;
    f11 := f11 + 1;
    f10 := Rotate(a, f01, f1, f11);
    n00 := f01 - f0;
    n10 := n0 - n00;
    n11 := n1 - n01 - 1;
    parts := Parts(x[..k], y[..n01], y[n01], x[k..], y[n01 + 1..]);
    DividedRight(c, x, y, k, n01);
    PartsInOrder(x, y, k, n01);
    RotatedInside(was, f0, x, y, k, n01 + 1, f01, f1, f11);
  }

  lemma AlreadyInOrder<T(!new)>(c: Order<T>, x: seq<T>, y: seq<T>)
    requires c.StrictWeak() && c.Sorted(x) && c.Sorted(y)
    requires x == [] || y == [] || !c.Less(y[0], x[|x| - 1])
    ensures Merge(c, x, y) == x + y
  {
    hide Merge;
    if x != [] && y != [] {
      assert c.AllLeq(x, y);
    }
    MergeInOrder(c, x, y);
  }

  lemma EntirelyOutOfOrder<T(!new)>(c: Order<T>, x: seq<T>, y: seq<T>)
    requires c.StrictWeak() && c.Sorted(x) && c.Sorted(y) && x != [] && y != []
    requires c.Less(y[|y| - 1], x[0])
    ensures Merge(c, x, y) == y + x
  {
    forall i, j | 0 <= i < |y| && 0 <= j < |x| ensures c.Less(y[i], x[j]) {
      assert !c.Less(y[|y| - 1], y[i]) && !c.Less(x[j], x[0]);
    }
    MergeExchange(c, x, y);
  }

  /** Elements of the left range not greater than the first of the right one stay. */
  lemma FrontInPlace<T(!new)>(c: Order<T>, x: seq<T>, y: seq<T>, k: int)
    requires c.StrictWeak() && c.Sorted(y) && 0 <= k <= |x| && y != []
    requires forall t :: 0 <= t < k ==> !c.Less(y[0], x[t])
    ensures Merge(c, x, y) == x[..k] + Merge(c, x[k..], y)
  {
    hide Merge;
    MergeSplit(c, x[..k], x[k..], [], y);
    MergeNone(c, x[..k], []);
    assert x[..k] + x[k..] == x && [] + y == y;
  }

  lemma NotBelowLast<T(!new)>(c: Order<T>, x: seq<T>, y: seq<T>, m: int)
    requires c.StrictWeak() && c.Sorted(x) && 0 <= m <= |y| && x != []
    requires forall t :: m <= t < |y| ==> !c.Less(y[t], x[|x| - 1])
    ensures c.AllLeq(x, y[m..])
  {
    forall i, j | 0 <= i < |x| && m <= j < |y| ensures !c.Less(y[j], x[i]) {
      if i < |x| - 1 {
        c.LeqTransitive(y[j], x[|x| - 1], x[i]);
      }
    }
  }

  /** Elements of the right range not less than the last of the left one stay. */
  lemma BackInPlace<T(!new)>(c: Order<T>, x: seq<T>, y1: seq<T>, y2: seq<T>)
    requires c.AllLeq(x, y2)
    ensures Merge(c, x, y1 + y2) == Merge(c, x, y1) + y2
  {
    hide Merge;
    MergeSplit(c, x, [], y1, y2);
    MergeNone(c, [], y2);
    assert x + [] == x;
  }

  /** The first loop of the checks: skips elements of the left range that are in place. */
  method SkipFront<T(!new)>(c: Order<T>, a: array<T>, f0: int, f1: int, ghost x: seq<T>, ghost y: seq<T>)
    returns (g0: int)
    requires c.StrictWeak() && 0 <= f0 <= f1 < a.Length && y != []
    requires c.Sorted(y) && a[f0..f1] == x && a[f1] == y[0]
    ensures f0 <= g0 <= f1 && (g0 < f1 ==> c.Less(a[f1], a[g0]))
    ensures Merge(c, x, y) == a[f0..g0] + Merge(c, a[g0..f1], y)
  {
    hide Merge, c.StrictWeak, c.Sorted;
    g0 := f0;
    while g0 != f1 && !c.Less(a[f1], a[g0])
      invariant f0 <= g0 <= f1
      invariant forall t :: f0 <= t < g0 ==> !c.Less(a[f1], a[t])
    {
      g0 := g0 + 1;
    }
    FrontInPlace(c, x, y, g0 - f0);
    assert x[..g0 - f0] == a[f0..g0] && x[g0 - f0..] == a[g0..f1];
  }

  /** The second loop: steps back over elements of the right range that are in place, and stops
      at the last one that is not, or at the first one of the range. */
  method SkipBack<T(!new)>(c: Order<T>, a: array<T>, f1: int, e1: int, ghost x: seq<T>, ghost y: seq<T>)
    returns (h: int)
    requires c.StrictWeak() && 0 < f1 < e1 <= a.Length && x != []
    requires c.Sorted(x) && a[f1 - 1] == x[|x| - 1] && a[f1..e1] == y
    ensures f1 <= h < e1
    ensures Merge(c, x, y) == Merge(c, x, a[f1..h + 1]) + a[h + 1..e1]
  {
    hide Merge, c.StrictWeak, c.Sorted;
    var highest := f1 - 1;
    h := e1 - 1;
    while h != f1 && !c.Less(a[h], a[highest])
      invariant f1 <= h < e1
      invariant forall t :: h < t < e1 ==> !c.Less(a[t], a[highest])
      decreases h
    {
      h := h - 1;
    }
    NotBelowLast(c, x, y, h + 1 - f1);
    BackInPlace(c, x, y[..h + 1 - f1], y[h + 1 - f1..]);
    assert y[..h + 1 - f1] == a[f1..h + 1] && y[h + 1 - f1..] == a[h + 1..e1];
    assert a[f1..h + 1] + a[h + 1..e1] == y;
  }

  /** The checks merge_adaptive_n begins with (and inplace_merge repeats): recognises ranges
      that need no merging or one rotation, and otherwise drops the elements at both ends
      that are in place already. */
  method FirstChecks<T(!new)>(c: Order<T>, a: array<T>, f0: int, n0: int, f1: int, n1: int, e1: int)
    returns (done: bool, g0: int, m0: int, h1: int, m1: int)
    requires c.StrictWeak() && 0 <= f0 <= f1 <= e1 <= a.Length && n0 == f1 - f0 && n1 == e1 - f1
    requires c.Sorted(a[f0..f1]) && c.Sorted(a[f1..e1])
    modifies a
    ensures done ==> a[..] == Splice(old(a[..]), f0, Merge(c, old(a[f0..f1]), old(a[f1..e1])))
    ensures !done ==> a[..] == old(a[..])
    ensures !done ==> f0 <= g0 < f1 < h1 <= e1 && m0 == f1 - g0 && m1 == h1 - f1
    ensures !done ==> Merge(c, a[f0..f1], a[f1..e1]) == a[f0..g0] + (Merge(c, a[g0..f1], a[f1..h1]) + a[h1..e1])
  {
    hide Merge, c.StrictWeak, c.Sorted, Splice;
    ghost var x, y, was := a[f0..f1], a[f1..e1], a[..];
    done, g0, m0, h1, m1 := true, f0, n0, e1, n1;
    if n0 == 0 || n1 == 0 || !c.Less(a[f1], a[f1 - 1]) {
      AlreadyInOrder(c, x, y);
      SpliceSame(a[..], f0, f1, e1);
      return;
    }
    if c.Less(a[e1 - 1], a[f0]) {
      EntirelyOutOfOrder(c, x, y);
      var r := Rotate(a, f0, f1, e1);
      return;
    }
    g0 := SkipFront(c, a, f0, f1, x, y);
    if g0 == f1 {
      MergeNone(c, a[g0..f1], y);
      SpliceSame(a[..], f0, f1, e1);
      return;
    }
    assert a[g0..f1] == x[g0 - f0..|x|];
    SortedSlice(c, x, g0 - f0, |x|);
    var h := SkipBack(c, a, f1, e1, a[g0..f1], y);
    if h == f1 {
      SingleLast(c, a[g0..f1], a[f1..h + 1]);
      RotateOneRight(a, g0, f1, h + 1);
      RotatedFront(was, f0, g0, f1, e1);
      return;
    }
    done, m0, h1, m1 := false, f1 - g0, h + 1, h + 1 - f1;
  }

  lemma SingleLast<T(!new)>(c: Order<T>, x: seq<T>, y: seq<T>)
    requires c.StrictWeak() && c.Sorted(x) && x != [] && |y| == 1 && c.Less(y[0], x[0])
    ensures Merge(c, x, y) == y + x
  {
    hide Merge;
    EntirelyOutOfOrder(c, x, y);
  }

  lemma SpliceSame<T>(s: seq<T>, f0: int, f1: int, e1: int)
    requires 0 <= f0 <= f1 <= e1 <= |s|
    ensures Splice(s, f0, s[f0..f1] + s[f1..e1]) == s
  {
  }

  lemma RotatedFront<T>(s: seq<T>, f0: int, g0: int, f1: int, e1: int)
    requires 0 <= f0 <= g0 <= f1 < e1 <= |s|
    ensures Splice(s, g0, [s[f1]] + s[g0..f1])
            == Splice(s, f0, s[f0..g0] + ((s[f1..f1 + 1] + s[g0..f1]) + s[f1 + 1..e1]))
  {
  }

  /** merge_adaptive_n: merges two adjacent sorted ranges in place, with a buffer of any size.
      Without room for the smaller range it splits the merge around a pivot that is then in its
      final place, so that the two halves have one element less between them. */
  method MergeAdaptive<T(!new)>(firstChecks: bool, randomAccess: bool, c: Order<T>, a: array<T>, f0: int, n0: int,
                                f1: int, n1: int, e1: int, buf: Buffer<T>)
    requires c.StrictWeak() && buf.Valid() && buf.first != a
    requires 0 <= f0 <= f1 <= e1 <= a.Length && n0 == f1 - f0 && n1 == e1 - f1
    requires c.Sorted(a[f0..f1]) && c.Sorted(a[f1..e1])
    modifies a, buf.first
    ensures a[..] == Splice(old(a[..]), f0, Merge(c, old(a[f0..f1]), old(a[f1..e1])))
    ensures buf.Kept(old(buf.first[..]))
    decreases n0 + n1, firstChecks
  {
    hide Merge, c.StrictWeak, c.Sorted, Splice;
    ghost var x, y, was := a[f0..f1], a[f1..e1], a[..];
    if firstChecks {
      var done, g0, m0, h1, m1 := FirstChecks(c, a, f0, n0, f1, n1, e1);
      if !done {
        SortedSlice(c, x, g0 - f0, |x|);
        SortedSlice(c, y, 0, h1 - f1);
        SliceOfSlice(was, f0, x, g0 - f0, |x|);
        SliceOfSlice(was, f1, y, 0, h1 - f1);
        MergeAdaptive(false, randomAccess, c, a, g0, m0, f1, m1, h1, buf);
        SpliceInside(was, f0, g0, Merge(c, was[g0..f1], was[f1..h1]), h1, e1);
      }
    } else if n0 <= buf.size || n1 <= buf.size {
      MergeWithBuffer(randomAccess, c, a, f0, n0, f1, n1, e1, buf);
    } else {
      var n00, f01, n01, f10, n10, f11, n11;
      ghost var parts;
      if n0 < n1 {
        n00, f01, n01, f10, n10, f11, n11, parts := MergeInplaceLeftSubproblem(c, a, f0, n0, f1, n1);
      } else {
        n00, f01, n01, f10, n10, f11, n11, parts := MergeInplaceRightSubproblem(c, a, f0, n0, f1, n1);
      }
      MergeHalves(randomAccess, c, a, f0, n00, f01, n01, f10, n10, f11, n11, buf, parts, was, n0 + n1);
    }
  }

  /** The two recursive calls of merge_adaptive_n. */
  method MergeHalves<T(!new)>(randomAccess: bool, c: Order<T>, a: array<T>, f0: int, n00: int, f01: int, n01: int,
                              f10: int, n10: int, f11: int, n11: int, buf: Buffer<T>, ghost parts: Parts<T>,
                              ghost was: seq<T>, ghost total: int)
    requires c.StrictWeak() && buf.Valid() && buf.first != a
    requires c.Sorted(parts.x1) && c.Sorted(parts.y1) && c.Sorted(parts.x2) && c.Sorted(parts.y2)
    requires n00 == |parts.x1| && n01 == |parts.y1| && n10 == |parts.x2| && n11 == |parts.y2|
    requires 0 <= f0 && f0 + |parts.All()| <= |was| && a[..] == Splice(was, f0, parts.All())
    requires f01 == f0 + n00 && f10 == f01 + n01 + 1 && f11 == f10 + n10
    requires total == n00 + n01 + n10 + n11 + 1
    modifies a, buf.first
    ensures a[..] == Splice(was, f0, Merge(c, parts.x1, parts.y1) + [parts.p] + Merge(c, parts.x2, parts.y2))
    ensures buf.Kept(old(buf.first[..]))
    decreases total, false, 0
  {
    hide Merge, c.StrictWeak, c.Sorted, Splice;
    assert |parts.All()| == total;
    parts.Read(was, f0);
    ghost var m1, m2 := Merge(c, parts.x1, parts.y1), Merge(c, parts.x2, parts.y2);
    MergeAdaptive(true, randomAccess, c, a, f0, n00, f01, n01, f01 + n01, buf);
    SpliceOutside(Splice(was, f0, parts.All()), f0, m1, f10, f11);
    SpliceOutside(Splice(was, f0, parts.All()), f0, m1, f11, f11 + n11);
    MergeAdaptive(true, randomAccess, c, a, f10, n10, f11, n11, f11 + n11, buf);
    parts.Joined(was, f0, m1, m2);
  }

  /** A splice of the middle of a range, written as one of the whole range. */
  lemma SpliceInside<T>(s: seq<T>, f0: int, g0: int, x: seq<T>, h1: int, e1: int)
    requires 0 <= f0 <= g0 && g0 + |x| == h1 <= e1 <= |s|
    ensures Splice(s, g0, x) == Splice(s, f0, s[f0..g0] + (x + s[h1..e1]))
  {
  }

  /** The public inplace_merge, with a buffer provided by the caller. */
  method InplaceMerge<T(!new)>(randomAccess: bool, c: Order<T>, a: array<T>, first: int, middle: int, last: int,
                               buf: Buffer<T>)
    requires c.StrictWeak() && buf.Valid() && buf.first != a
    requires 0 <= first <= middle <= last <= a.Length
    requires c.Sorted(a[first..middle]) && c.Sorted(a[middle..last])
    modifies a, buf.first
    ensures a[..] == Splice(old(a[..]), first, Merge(c, old(a[first..middle]), old(a[middle..last])))
    ensures buf.Kept(old(buf.first[..]))
  {
    hide Merge, c.StrictWeak, c.Sorted, Splice;
    ghost var x, y, was := a[first..middle], a[middle..last], a[..];
    if middle == first || middle == last {
      AlreadyInOrder(c, x, y);
      SpliceSame(a[..], first, middle, last);
      return;
    }
    var done, g0, m0, h1, m1 := FirstChecks(c, a, first, middle - first, middle, last - middle, last);
    if !done {
      SortedSlice(c, x, g0 - first, |x|);
      SortedSlice(c, y, 0, h1 - middle);
      SliceOfSlice(was, first, x, g0 - first, |x|);
      SliceOfSlice(was, middle, y, 0, h1 - middle);
      MergeAdaptive(false, randomAccess, c, a, g0, m0, middle, m1, h1, buf);
      SpliceInside(was, first, g0, Merge(c, was[g0..middle], was[middle..h1]), h1, last);
    }
  }
}
