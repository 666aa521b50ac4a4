/** The merging primitives of seq/algorithm.hpp: forward, backward and overlapping merges. */
module Merging {
  import opened Ordering
  import opened StableSorting
  import opened Ranges

  /** An iterator into an array, possibly a reverse iterator: like std::reverse_iterator,
      a reversed view at `pos` designates the element before `pos` and moves down. */
  datatype View<T(!new)> = View(arr: array<T>, pos: int, reversed: bool) {

    /** The array index `i` steps ahead. */
    function At(i: int): int {
      if reversed then pos - 1 - i else pos + i
    }

    function Advance(i: int): View<T> {
      View(arr, if reversed then pos - i else pos + i, reversed)
    }

    /** There are `n` elements ahead. */
    ghost predicate Fits(n: int) {
      0 <= n && if reversed then n <= pos <= arr.Length else 0 <= pos <= arr.Length - n
    }

    ghost predicate Covers(n: int, p: int) {
      if reversed then pos - n <= p < pos else pos <= p < pos + n
    }

    /** The next `n` elements. */
    ghost function Read(n: int): (s: seq<T>)
      requires Fits(n)
      reads arr
      ensures |s| == n
      ensures forall i :: 0 <= i < n ==> s[i] == arr[At(i)]
    {
      if reversed then Reversed(arr[pos - n..pos]) else arr[pos..pos + n]
    }
  }

  /** The array `now` differs from `was` at most where `out` covers `n` elements. */
  ghost predicate OnlyCovered<T(!new)>(out: View<T>, n: int, was: seq<T>, now: seq<T>) {
    && |was| == |now|
    && forall p :: 0 <= p < |was| && !out.Covers(n, p) ==> now[p] == was[p]
  }

  /** What has been written through a view is a splice of what was there. */
  lemma WrittenSplice<T(!new)>(out: View<T>, n: int, was: seq<T>, m: seq<T>)
    requires out.Fits(n) && OnlyCovered(out, n, was, out.arr[..])
    requires out.Read(n) == if out.reversed then Reversed(m) else m
    ensures |m| == n
    ensures out.arr[..] == Splice(was, if out.reversed then out.pos - n else out.pos, m)
  {
    var lo := if out.reversed then out.pos - n else out.pos;
    var r := out.arr[lo..lo + n];
    if out.reversed {
      assert Reversed(r) == Reversed(m) && |Reversed(m)| == |m|;
      forall i | 0 <= i < n ensures r[i] == m[i] {
        assert Reversed(r)[n - 1 - i] == r[i] && Reversed(m)[n - 1 - i] == m[i];
      }
    }
    assert r == m;
    IsSplice(was, lo, lo + n, out.arr[..]);
  }

  /** `(i, j)` separates `a` and `b`: a stable merge takes `a[..i]` and `b[..j]` first. */
  ghost predicate Cut<T(!new)>(c: Order<T>, a: seq<T>, b: seq<T>, i: int, j: int) {
    && 0 <= i <= |a| && 0 <= j <= |b|
    && (forall p, q :: 0 <= p < i && j <= q < |b| ==> !c.Less(b[q], a[p]))
    && (forall p, q :: i <= p < |a| && 0 <= q < j ==> c.Less(b[q], a[p]))
  }

  lemma CutMerge<T(!new)>(c: Order<T>, a: seq<T>, b: seq<T>, i: int, j: int)
    requires Cut(c, a, b, i, j)
    ensures Merge(c, a, b) == Merge(c, a[..i], b[..j]) + Merge(c, a[i..], b[j..])
  {
    hide Merge;
    MergeSplit(c, a[..i], a[i..], b[..j], b[j..]);
    assert a[..i] + a[i..] == a && b[..j] + b[j..] == b;
  }

  /** Taking the next element of the left range. */
  lemma CutLeft<T(!new)>(c: Order<T>, a: seq<T>, b: seq<T>, i: int, j: int)
    requires c.StrictWeak() && c.Sorted(a) && c.Sorted(b)
    requires Cut(c, a, b, i, j) && i < |a|
    requires j < |b| ==> !c.Less(b[j], a[i])
    ensures Cut(c, a, b, i + 1, j)
    ensures Merge(c, a[..i + 1], b[..j]) == Merge(c, a[..i], b[..j]) + [a[i]]
  {
    MergeSplit(c, a[..i], [a[i]], b[..j], []);
    assert a[..i] + [a[i]] == a[..i + 1] && b[..j] + [] == b[..j];
  }

  /** Taking the next element of the right range. */
  lemma CutRight<T(!new)>(c: Order<T>, a: seq<T>, b: seq<T>, i: int, j: int)
    requires c.StrictWeak() && c.Sorted(a) && c.Sorted(b)
    requires Cut(c, a, b, i, j) && j < |b|
    requires i < |a| ==> c.Less(b[j], a[i])
    ensures Cut(c, a, b, i, j + 1)
    ensures Merge(c, a[..i], b[..j + 1]) == Merge(c, a[..i], b[..j]) + [b[j]]
  {
    MergeSplit(c, a[..i], [], b[..j], [b[j]]);
    assert b[..j] + [b[j]] == b[..j + 1] && a[..i] + [] == a[..i];
  }

  /** Where the two inputs and the output of a merge lie. */
  datatype Lanes<T(!new)> = Lanes(first: View<T>, second: View<T>, out: View<T>, overlap: bool) {

    /** The left range is never in the array written to; the right range is either
        elsewhere too, or directly behind the place the left range will take. */
    ghost predicate Valid(n1: int, n2: int) {
      && first.Fits(n1) && second.Fits(n2) && out.Fits(n1 + n2)
      && first.arr != out.arr
      && if overlap then second == out.Advance(n1) else second.arr != out.arr
    }

    /** `i` elements of `a` and `j` of `b` are written, the others are still unread and
        unharmed, and nothing outside the output has changed since `was`. */
    ghost predicate Progress(c: Order<T>, a: seq<T>, b: seq<T>, i: int, j: int, was: seq<T>)
      reads first.arr, second.arr, out.arr
    {
      && c.StrictWeak() && c.Sorted(a) && c.Sorted(b)
      && Valid(|a|, |b|)
      && 0 <= i <= |a| && 0 <= j <= |b|
      && Cut(c, a, b, i, j)
      && (forall t :: i <= t < |a| ==> first.arr[first.At(t)] == a[t])
      && (forall t :: j <= t < |b| ==> second.arr[second.At(t)] == b[t])
      && out.Read(i + j) == Merge(c, a[..i], b[..j])
      && OnlyCovered(out, |a| + |b|, was, out.arr[..])
    }

    method TakeLeft(c: Order<T>, i: int, j: int, ghost a: seq<T>, ghost b: seq<T>, ghost was: seq<T>)
      requires Progress(c, a, b, i, j, was)
      requires i < |a| && (j < |b| ==> !c.Less(b[j], a[i]))
      modifies out.arr
      ensures Progress(c, a, b, i + 1, j, was)
    {
      CutLeft(c, a, b, i, j);
      ghost var done := out.Read(i + j);
      out.arr[out.At(i + j)] := first.arr[first.At(i)];
      assert out.Read(i + j + 1) == done + [a[i]];
    }

    method TakeRight(c: Order<T>, i: int, j: int, ghost a: seq<T>, ghost b: seq<T>, ghost was: seq<T>)
      requires Progress(c, a, b, i, j, was)
      requires j < |b| && (i < |a| ==> c.Less(b[j], a[i]))
      modifies out.arr
      ensures Progress(c, a, b, i, j + 1, was)
    {
      CutRight(c, a, b, i, j);
      ghost var done := out.Read(i + j);
      out.arr[out.At(i + j)] := second.arr[second.At(j)];
      assert out.Read(i + j + 1) == done + [b[j]];
    }

    /** std::copy of left elements to the output, from the `i`-th up to the `stop`-th. */
    method CopyLeft(c: Order<T>, i: int, stop: int, j: int, ghost a: seq<T>, ghost b: seq<T>, ghost was: seq<T>)
      requires Progress(c, a, b, i, j, was) && i <= stop <= |a|
      requires forall t :: i <= t < stop && j < |b| ==> !c.Less(b[j], a[t])
      modifies out.arr
      ensures Progress(c, a, b, stop, j, was)
    {
      for t := i to stop
        invariant Progress(c, a, b, t, j, was)
      {
        TakeLeft(c, t, j, a, b, was);
      }
    }

    method CopyRight(c: Order<T>, i: int, j: int, stop: int, ghost a: seq<T>, ghost b: seq<T>, ghost was: seq<T>)
      requires Progress(c, a, b, i, j, was) && j <= stop <= |b|
      requires forall t :: j <= t < stop && i < |a| ==> c.Less(b[t], a[i])
      modifies out.arr
      ensures Progress(c, a, b, i, stop, was)
    {
      for t := j to stop
        invariant Progress(c, a, b, i, t, was)
      {
        TakeRight(c, i, t, a, b, was);
      }
    }

    /** Takes left elements as long as the next right element is not less. */
    method RunLeft(c: Order<T>, start: int, n1: int, j: int, ghost a: seq<T>, ghost b: seq<T>, ghost was: seq<T>)
      returns (i: int)
      requires Progress(c, a, b, start, j, was) && n1 == |a| && j < |b|
      modifies out.arr
      ensures Progress(c, a, b, i, j, was) && start <= i <= n1
      ensures i < n1 ==> c.Less(b[j], a[i])
    {
      hide Merge, OnlyCovered, Cut, c.StrictWeak, c.Sorted;
      i := start;
      while i != n1 && !c.Less(second.arr[second.At(j)], first.arr[first.At(i)])
        invariant Progress(c, a, b, i, j, was) && start <= i
        decreases n1 - i
      {
        TakeLeft(c, i, j, a, b, was);
        i := i + 1;
      }
    }

    /** Takes right elements as long as they are less than the next left element. */
    method RunRight(c: Order<T>, i: int, start: int, n2: int, ghost a: seq<T>, ghost b: seq<T>, ghost was: seq<T>)
      returns (j: int)
      requires Progress(c, a, b, i, start, was) && n2 == |b| && i < |a|
      modifies out.arr
      ensures Progress(c, a, b, i, j, was) && start <= j <= n2
      ensures j < n2 ==> !c.Less(b[j], a[i])
    {
      hide Merge, OnlyCovered, Cut, c.StrictWeak, c.Sorted;
      j := start;
      while j != n2 && c.Less(second.arr[second.At(j)], first.arr[first.At(i)])
        invariant Progress(c, a, b, i, j, was) && start <= j
        decreases n2 - j
      {
        TakeRight(c, i, j, a, b, was);
        j := j + 1;
      }
    }

    /** The right elements up to the lower bound of the next left one. */
    method SkipRight(c: Order<T>, i: int, j: int, n2: int, ghost a: seq<T>, ghost b: seq<T>, ghost was: seq<T>)
      returns (found: int)
      requires Progress(c, a, b, i, j, was) && n2 == |b| && i < |a|
      modifies out.arr
      ensures Progress(c, a, b, i, found, was) && j <= found <= n2
      ensures found < n2 ==> !c.Less(b[found], a[i])
    {
      hide Merge, OnlyCovered, Cut, c.StrictWeak, c.Sorted;
      found := LowerBound(c, second, j, n2, first.arr[first.At(i)], b);
      CopyRight(c, i, j, found, a, b, was);
    }

    /** The left elements up to the upper bound of the next right one. */
    method SkipLeft(c: Order<T>, i: int, n1: int, j: int, ghost a: seq<T>, ghost b: seq<T>, ghost was: seq<T>)
      returns (found: int)
      requires Progress(c, a, b, i, j, was) && n1 == |a| && j < |b|
      modifies out.arr
      ensures Progress(c, a, b, found, j, was) && i <= found <= n1
      ensures found < n1 ==> c.Less(b[j], a[found])
    {
      hide Merge, OnlyCovered, Cut, c.StrictWeak, c.Sorted;
      found := UpperBound(c, first, i, n1, second.arr[second.At(j)], a);
      CopyLeft(c, i, found, j, a, b, was);
    }

    /** The branch for a left range much smaller than the right one. */
    method MergeSmallLeft(c: Order<T>, n1: int, n2: int, ghost a: seq<T>, ghost b: seq<T>, ghost was: seq<T>)
      returns (i: int, j: int)
      requires Progress(c, a, b, 0, 0, was) && n1 == |a| && n2 == |b|
      modifies out.arr
      ensures Progress(c, a, b, i, j, was) && i == n1 && j <= n2
    {
      hide Progress, c.StrictWeak, c.Sorted;
      i, j := 0, 0;
      while i != n1
        invariant Progress(c, a, b, i, j, was) && i <= n1 && j <= n2
        decreases n1 - i
      {
        if j != n2 {
          i := RunLeft(c, i, n1, j, a, b, was);
          if i == n1 {
            break;
          }
          j := SkipRight(c, i, j, n2, a, b, was);
        }
        TakeLeft(c, i, j, a, b, was);
        i := i + 1;
      }
    }

    /** The branch for a right range much smaller than the left one. */
    method MergeSmallRight(c: Order<T>, n1: int, n2: int, ghost a: seq<T>, ghost b: seq<T>, ghost was: seq<T>)
      returns (i: int, j: int)
      requires Progress(c, a, b, 0, 0, was) && n1 == |a| && n2 == |b|
      modifies out.arr
      ensures Progress(c, a, b, i, j, was) && i <= n1 && j == n2
    {
      hide Progress, c.StrictWeak, c.Sorted;
      i, j := 0, 0;
      while j != n2
        invariant Progress(c, a, b, i, j, was) && i <= n1 && j <= n2
        decreases n2 - j
      {
        if i != n1 {
          j := RunRight(c, i, j, n2, a, b, was);
          if j == n2 {
            break;
          }
          i := SkipLeft(c, i, n1, j, a, b, was);
        }
        TakeRight(c, i, j, a, b, was);
        j := j + 1;
      }
    }

    /** The branch for ranges of comparable size. */
    method MergeBalanced(c: Order<T>, n1: int, n2: int, ghost a: seq<T>, ghost b: seq<T>, ghost was: seq<T>)
      returns (i: int, j: int)
      requires Progress(c, a, b, 0, 0, was) && n1 == |a| && n2 == |b|
      modifies out.arr
      ensures Progress(c, a, b, i, j, was) && i <= n1 && j <= n2 && (i == n1 || j == n2)
    {
      hide Progress, c.StrictWeak, c.Sorted;
      i, j := 0, 0;
      while j != n2
        invariant Progress(c, a, b, i, j, was) && i <= n1 && j <= n2
        decreases n2 - j
      {
        i := RunLeft(c, i, n1, j, a, b, was);
        if i == n1 {
          break;
        }
        TakeRight(c, i, j, a, b, was);
        j := j + 1;
        j := RunRight(c, i, j, n2, a, b, was);
        TakeLeft(c, i, j, a, b, was);
        i := i + 1;
      }
    }

    lemma NothingTaken(c: Order<T>, a: seq<T>, b: seq<T>)
      requires c.StrictWeak() && c.Sorted(a) && c.Sorted(b) && Valid(|a|, |b|)
      requires a == first.Read(|a|) && b == second.Read(|b|)
      ensures Progress(c, a, b, 0, 0, out.arr[..])
    {
    }

    lemma AllTaken(c: Order<T>, a: seq<T>, b: seq<T>, was: seq<T>)
      requires Progress(c, a, b, |a|, |b|, was)
      ensures out.Fits(|a| + |b|) && out.Read(|a| + |b|) == Merge(c, a, b)
      ensures OnlyCovered(out, |a| + |b|, was, out.arr[..])
    {
      assert a[..|a|] == a && b[..|b|] == b;
    }

    /** What is left of the right range when the left one is used up is already in place
        if the ranges overlap. */
    lemma RestInPlace(c: Order<T>, a: seq<T>, b: seq<T>, j: int, was: seq<T>)
      requires overlap && Progress(c, a, b, |a|, j, was)
      ensures out.Fits(|a| + |b|) && out.Read(|a| + |b|) == Merge(c, a, b)
      ensures OnlyCovered(out, |a| + |b|, was, out.arr[..])
    {
      CutMerge(c, a, b, |a|, j);
      assert a[..|a|] == a && a[|a|..] == [];
      var r := out.Read(|a| + |b|);
      assert r[..|a| + j] == out.Read(|a| + j);
      forall t | |a| + j <= t < |a| + |b| ensures r[t] == b[t - |a|] {
        assert second.At(t - |a|) == out.At(t);
      }
      assert r[|a| + j..] == b[j..];
      assert r == r[..|a| + j] + r[|a| + j..];
    }
  }

  /** std::lower_bound over the elements `lo` to `hi` of a view that reads `s` there. */
  method LowerBound<T(!new)>(c: Order<T>, v: View<T>, lo: int, hi: int, x: T, ghost s: seq<T>) returns (r: int)
    requires c.StrictWeak() && c.Sorted(s) && 0 <= lo <= hi <= |s| && v.Fits(|s|)
    requires forall t :: lo <= t < hi ==> v.arr[v.At(t)] == s[t]
    ensures lo <= r <= hi
    ensures forall t :: lo <= t < r ==> c.Less(s[t], x)
    ensures forall t :: r <= t < hi ==> !c.Less(s[t], x)
  {
    var end := hi;
    r := lo;
    while r < end
      invariant lo <= r <= end <= hi
      invariant forall t :: lo <= t < r ==> c.Less(s[t], x)
      invariant forall t :: end <= t < hi ==> !c.Less(s[t], x)
    {
      var mid := r + (end - r) / 2;
      if c.Less(v.arr[v.At(mid)], x) {
        r := mid + 1;
      } else {
        end := mid;
      }
    }
  }

  /** std::upper_bound, likewise. */
  method UpperBound<T(!new)>(c: Order<T>, v: View<T>, lo: int, hi: int, x: T, ghost s: seq<T>) returns (r: int)
    requires c.StrictWeak() && c.Sorted(s) && 0 <= lo <= hi <= |s| && v.Fits(|s|)
    requires forall t :: lo <= t < hi ==> v.arr[v.At(t)] == s[t]
    ensures lo <= r <= hi
    ensures forall t :: lo <= t < r ==> !c.Less(x, s[t])
    ensures forall t :: r <= t < hi ==> c.Less(x, s[t])
  {
    var end := hi;
    r := lo;
    while r < end
      invariant lo <= r <= end <= hi
      invariant forall t :: lo <= t < r ==> !c.Less(x, s[t])
      invariant forall t :: end <= t < hi ==> c.Less(x, s[t])
    {
      var mid := r + (end - r) / 2;
      if !c.Less(x, v.arr[v.At(mid)]) {
        r := mid + 1;
      } else {
        end := mid;
      }
    }
  }

  /** merge_forward: writes the stable merge of two ranges. With `overlap` the right range
      already stands where its end belongs, and is overwritten only once read. */
  method MergeForward<T(!new)>(overlap: bool, randomAccess: bool, c: Order<T>, first: View<T>, n1: nat,
                               second: View<T>, n2: nat, out: View<T>) returns (k: nat)
    requires c.StrictWeak() && Lanes(first, second, out, overlap).Valid(n1, n2)
    requires c.Sorted(first.Read(n1)) && c.Sorted(second.Read(n2))
    modifies out.arr
    ensures out.Read(n1 + n2) == Merge(c, old(first.Read(n1)), old(second.Read(n2)))
    ensures OnlyCovered(out, n1 + n2, old(out.arr[..]), out.arr[..])
    ensures !(overlap && out.reversed) ==> k == n1 + n2
  {
    var lanes := Lanes(first, second, out, overlap);
    hide Merge, c.StrictWeak, c.Sorted, OnlyCovered, lanes.Progress, out.Read;
    ghost var a, b, was := first.Read(n1), second.Read(n2), out.arr[..];
    lanes.NothingTaken(c, a, b);
    var i, j;
    if randomAccess && n1 * 32 < n2 {
      i, j := lanes.MergeSmallLeft(c, n1, n2, a, b, was);
    } else if randomAccess && n2 * 32 < n1 {
      i, j := lanes.MergeSmallRight(c, n1, n2, a, b, was);
    } else {
      i, j := lanes.MergeBalanced(c, n1, n2, a, b, was);
    }
    lanes.CopyLeft(c, i, n1, j, a, b, was);
    k := n1 + j;
    if overlap && second.Advance(j) == out.Advance(k) {
      lanes.RestInPlace(c, a, b, j, was);
      if !out.reversed {
        k := k + (n2 - j);
      }
    } else {
      lanes.CopyRight(c, n1, j, n2, a, b, was);
      lanes.AllTaken(c, a, b, was);
      k := k + (n2 - j);
    }
  }
}
