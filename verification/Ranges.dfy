/** Ranges of an array, and the standard algorithms on them that the sort relies on. */
module Ranges {
  import opened Ordering

  /** `s` with the elements from `lo` on replaced by `x`. */
  function Splice<T>(s: seq<T>, lo: int, x: seq<T>): (r: seq<T>)
    requires 0 <= lo && lo + |x| <= |s|
    ensures |r| == |s|
  {
    s[..lo] + x + s[lo + |x|..]
  }

  /** A sequence that differs from another only inside a range is a splice of it. */
  lemma IsSplice<T>(s: seq<T>, lo: int, hi: int, r: seq<T>)
    requires 0 <= lo <= hi <= |s| == |r|
    requires forall i :: 0 <= i < |s| && !(lo <= i < hi) ==> r[i] == s[i]
    ensures r == Splice(s, lo, r[lo..hi])
  {
  }

  /** Splices into two halves of a range make one splice. */
  lemma SpliceTwice<T>(s: seq<T>, lo: int, x: seq<T>, y: seq<T>)
    requires 0 <= lo && lo + |x| + |y| <= |s|
    ensures Splice(Splice(s, lo, x), lo + |x|, y) == Splice(s, lo, x + y)
  {
  }

  /** A later splice over the whole range hides an earlier one inside it. */
  lemma SpliceOver<T>(s: seq<T>, lo: int, x: seq<T>, at: int, y: seq<T>)
    requires 0 <= lo <= at && at + |y| <= lo + |x| && lo + |x| <= |s|
    ensures Splice(Splice(s, at, y), lo, x) == Splice(s, lo, x)
  {
  }

  /** Nothing outside a splice changes. */
  lemma SpliceOutside<T>(s: seq<T>, lo: int, x: seq<T>, i: int, j: int)
    requires 0 <= lo && lo + |x| <= |s| && 0 <= i <= j <= |s|
    requires j <= lo || lo + |x| <= i
    ensures Splice(s, lo, x)[i..j] == s[i..j]
  {
  }

  lemma SpliceElsewhere<T>(s: seq<T>, lo: int, x: seq<T>)
    requires 0 <= lo && lo + |x| <= |s|
    ensures forall k :: 0 <= k < |s| && !(lo <= k < lo + |x|) ==> Splice(s, lo, x)[k] == s[k]
  {
  }

  lemma SpliceRead<T>(s: seq<T>, lo: int, x: seq<T>, i: int)
    requires 0 <= lo && lo + |x| <= i <= |s|
    ensures Splice(s, lo, x)[lo..lo + |x|] == x
    ensures Splice(s, lo, x)[i..] == s[i..]
  {
  }

  lemma NoSplice<T>(s: seq<T>, lo: int)
    requires 0 <= lo <= |s|
    ensures Splice(s, lo, []) == s
  {
  }

  /** Filling the gap between two parts that are in place already. */
  lemma SpliceMiddle<T>(s: seq<T>, lo: int, x: seq<T>, y: seq<T>, z: seq<T>, d: seq<T>)
    requires 0 <= lo && lo + |x| + |y| + |z| <= |s| == |d|
    requires d[..lo] == s[..lo] && d[lo + |x| + |y| + |z|..] == s[lo + |x| + |y| + |z|..]
    requires d[lo..lo + |x|] == x && d[lo + |x| + |y|..lo + |x| + |y| + |z|] == z
    ensures Splice(d, lo + |x|, y) == Splice(s, lo, x + y + z)
  {
    assert d[..lo + |x|] == s[..lo] + x;
    assert d[lo + |x| + |y|..] == z + s[lo + |x| + |y| + |z|..];
  }

  lemma SlicePrefix<T>(s: seq<T>, lo: int, hi: int, n: int)
    requires 0 <= lo <= lo + n <= hi <= |s| && 0 <= n
    ensures s[lo..hi][..n] == s[lo..lo + n]
  {
  }

  lemma SliceOfSlice<T>(s: seq<T>, lo: int, x: seq<T>, i: int, j: int)
    requires 0 <= lo && lo + |x| <= |s| && s[lo..lo + |x|] == x && 0 <= i <= j <= |x|
    ensures s[lo + i..lo + j] == x[i..j]
  {
    var y := s[lo + i..lo + j];
    forall k | 0 <= k < |y| ensures y[k] == x[i + k] {
      assert x[i + k] == s[lo..lo + |x|][i + k];
    }
  }

  /** std::move (and std::copy) of `n` elements to another array. */
  method MoveRange<T>(src: array<T>, from: int, n: int, dst: array<T>, to: int)
    requires src != dst && 0 <= n && 0 <= from <= src.Length - n && 0 <= to <= dst.Length - n
    modifies dst
    ensures dst[..] == Splice(old(dst[..]), to, old(src[from..from + n]))
  {
    forall k | 0 <= k < n {
      dst[to + k] := src[from + k];
    }
  }

  /** std::rotate: `mid` becomes the first element of the range. */
  method Rotate<T>(a: array<T>, first: int, mid: int, last: int) returns (r: int)
    requires 0 <= first <= mid <= last <= a.Length
    modifies a
    ensures a[..] == Splice(old(a[..]), first, old(a[mid..last]) + old(a[first..mid]))
    ensures r == first + (last - mid)
  {
    var s := a[mid..last] + a[first..mid];
    forall k | 0 <= k < |s| {
      a[first + k] := s[k];
    }
    r := first + (last - mid);
  }

  /** std::reverse. */
  method Reverse<T>(a: array<T>, first: int, last: int)
    requires 0 <= first <= last <= a.Length
    modifies a
    ensures a[..] == Splice(old(a[..]), first, Reversed(old(a[first..last])))
  {
    var s := Reversed(a[first..last]);
    forall k | 0 <= k < |s| {
      a[first + k] := s[k];
    }
  }
}
