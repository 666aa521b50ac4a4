/** Sorting chunks of up to 128 elements: atom_sort_64 and sort_128 of seq/algorithm.hpp. */
module Chunks {
  import opened Ordering
  import opened StableSorting
  import opened Ranges
  import opened Wrappers
  import opened Bidirectional
  import opened InPlaceMerging
  import opened NetworkSort
  import opened Runs

  /** The elements whose stable sort sort_128 leaves: every eight of them have gone through
      atom_sort_8 first. */
  function Blocks<T(!new)>(randomAccess: bool, c: Order<T>, s: seq<T>): (r: seq<T>)
    ensures |r| == |s| && multiset(r) == multiset(s)
  {
    if |s| <= 8 then Networked(randomAccess, c, s)
    else
      assert s == s[..8] + s[8..];
      Networked(randomAccess, c, s[..8]) + Blocks(randomAccess, c, s[8..])
  }

  /** Whole blocks in front do not change those that follow. */
  lemma {:induction false} BlocksConcat<T(!new)>(randomAccess: bool, c: Order<T>, x: seq<T>, y: seq<T>)
    requires |x| % 8 == 0
    ensures Blocks(randomAccess, c, x + y) == Blocks(randomAccess, c, x) + Blocks(randomAccess, c, y)
    decreases |x|
  {
    hide Networked, Blocks;
    if x == [] {
      NoBlocks(randomAccess, c, x);
      assert x + y == y;
    } else {
      var b, rest := x[..8], x[8..];
      assert x == b + rest && x + y == b + (rest + y);
      FirstBlock(randomAccess, c, b, rest);
      FirstBlock(randomAccess, c, b, rest + y);
      BlocksConcat(randomAccess, c, rest, y);
    }
  }

  lemma FirstBlock<T(!new)>(randomAccess: bool, c: Order<T>, b: seq<T>, s: seq<T>)
    requires |b| == 8
    ensures Blocks(randomAccess, c, b + s) == Networked(randomAccess, c, b) + Blocks(randomAccess, c, s)
  {
    hide Networked;
    if s == [] {
      NoBlocks(randomAccess, c, s);
      assert b + s == b;
    } else {
      assert (b + s)[..8] == b && (b + s)[8..] == s;
    }
  }

  lemma NoBlocks<T(!new)>(randomAccess: bool, c: Order<T>, s: seq<T>)
    requires |s| == 0
    ensures Blocks(randomAccess, c, s) == []
  {
  }

  /** Without random access, nothing goes through the network. */
  lemma {:induction false} NoNetwork<T(!new)>(c: Order<T>, s: seq<T>)
    ensures Blocks(false, c, s) == s
  {
    if |s| > 8 {
      NoNetwork(c, s[8..]);
    }
  }

  /** Sorts the next eight elements, behind those of `done`. */
  method AtomNext<T(!new)>(t: Traits, a: array<T>, p: int, c: Order<T>, ghost first: int, ghost was: seq<T>,
                           ghost done: seq<T>)
    returns (end: int, ghost x: seq<T>, ghost all: seq<T>)
    requires c.StrictWeak() && 0 <= first && p == first + |done| && p + 8 <= a.Length == |was|
    requires a[..] == Splice(was, first, done)
    modifies a
    ensures end == p + 8 && |x| == 8 && all == done + x
    ensures IsSortOf(c, Networked(t.randomAccess, c, was[p..p + 8]), x) && a[..] == Splice(was, first, all)
  {
    hide Splice, Networked, c.StrictWeak;
    SpliceOutside(was, first, done, p, p + 8);
    end := AtomSort8(Exactly(8), t.randomAccess, a, p, 8, c);
    x := StableSort(c, Networked(t.randomAccess, c, was[p..p + 8]));
    SortRearranges(c, Networked(t.randomAccess, c, was[p..p + 8]));
    all := done + x;
    SpliceTwice(was, first, done, x);
  }

  ghost predicate IsSortOf<T(!new)>(c: Order<T>, p: seq<T>, r: seq<T>) {
    c.Sorted(r) && Rearranges(c, p, r)
  }

  /** Merges the next two runs of `w` elements to another array, behind what is `done` there. */
  method MergePair<T(!new)>(t: Traits, w: nat, src: array<T>, p: int, c: Order<T>, dst: array<T>, out: int,
                            ghost lo: int, ghost was: seq<T>, ghost done: seq<T>)
    returns (end: int, ghost all: seq<T>)
    requires c.StrictWeak() && src != dst && 0 <= p && p + 2 * w <= src.Length
    requires c.Sorted(src[p..p + w]) && c.Sorted(src[p + w..p + 2 * w])
    requires 0 <= lo && out == lo + |done| && out + 2 * w <= dst.Length == |was|
    requires dst[..] == Splice(was, lo, done)
    modifies dst
    ensures end == out + 2 * w && |all| == |done| + 2 * w
    ensures all == done + StableSort(c, old(src[p..p + w]) + old(src[p + w..p + 2 * w]))
            && dst[..] == Splice(was, lo, all)
  {
    hide Splice, StableSort, Merge, c.StrictWeak, c.Sorted;
    ghost var x, y := src[p..p + w], src[p + w..p + 2 * w];
    MergeIsSort(c, x, y);
    end := MergeMoveBidirectional(Exactly(w), t.Fast(), c, src, p, p + w, p + w, p + 2 * w, dst, out, None);
    all := done + StableSort(c, x + y);
    SpliceTwice(was, lo, done, StableSort(c, x + y));
  }

  /** Four chunks of eight elements, read one after another. */
  ghost predicate FourSorted<T(!new)>(c: Order<T>, ra: bool, s: seq<T>, p: int, r: seq<seq<T>>) {
    && 0 <= p && p + 32 <= |s| && |r| == 4
    && |r[0]| == |r[1]| == |r[2]| == |r[3]| == 8
    && IsSortOf(c, Networked(ra, c, s[p..p + 8]), r[0]) && IsSortOf(c, Networked(ra, c, s[p + 8..p + 16]), r[1])
    && IsSortOf(c, Networked(ra, c, s[p + 16..p + 24]), r[2]) && IsSortOf(c, Networked(ra, c, s[p + 24..p + 32]), r[3])
  }

  /** Half of the calls of atom_sort_8 in atom_sort_64. */
  method FourAtoms<T(!new)>(t: Traits, a: array<T>, p: int, c: Order<T>, ghost first: int, ghost was: seq<T>,
                            ghost done: seq<T>)
    returns (it0: int, it1: int, it2: int, it3: int, ghost r: seq<seq<T>>, ghost all: seq<T>)
    requires c.StrictWeak() && 0 <= first && p == first + |done| && p + 32 <= a.Length == |was|
    requires a[..] == Splice(was, first, done)
    modifies a
    ensures it0 == p + 8 && it1 == p + 16 && it2 == p + 24 && it3 == p + 32
    ensures FourSorted(c, t.randomAccess, was, p, r)
    ensures all == done + r[0] + r[1] + r[2] + r[3] && a[..] == Splice(was, first, all)
  {
    hide Splice, IsSortOf, c.StrictWeak, Networked;
    ghost var x0, x1, x2, x3;
    it0, x0, all := AtomNext(t, a, p, c, first, was, done);
    it1, x1, all := AtomNext(t, a, it0, c, first, was, all);
    it2, x2, all := AtomNext(t, a, it1, c, first, was, all);
    it3, x3, all := AtomNext(t, a, it2, c, first, was, all);
    r := [x0, x1, x2, x3];
  }

  /** The calls of atom_sort_8 in atom_sort_64. */
  method EightAtoms<T(!new)>(t: Traits, a: array<T>, first: int, c: Order<T>)
    returns (ghost l: seq<seq<T>>, ghost r: seq<seq<T>>, ghost all: seq<T>)
    requires c.StrictWeak() && 0 <= first && first + 64 <= a.Length
    modifies a
    ensures FourSorted(c, t.randomAccess, old(a[..]), first, l)
            && FourSorted(c, t.randomAccess, old(a[..]), first + 32, r)
    ensures |l| == |r| == 4 && all == l[0] + l[1] + l[2] + l[3] + r[0] + r[1] + r[2] + r[3] && |all| == 64
    ensures a[..] == Splice(old(a[..]), first, all)
  {
    hide Splice, c.StrictWeak, IsSortOf, Networked;
    ghost var was := a[..];
    NoSplice(was, first);
    var it0, it1, it2, it3;
    it0, it1, it2, it3, l, all := FourAtoms(t, a, first, c, first, was, []);
    assert all == l[0] + l[1] + l[2] + l[3];
    it0, it1, it2, it3, r, all := FourAtoms(t, a, it3, c, first, was, all);
  }

  /** The two halves of the merge tree of atom_sort_64. */
  ghost function Merged32<T(!new)>(c: Order<T>, r: seq<seq<T>>): (m: seq<T>)
    requires |r| == 4
    ensures |m| == |r[0]| + |r[1]| + |r[2]| + |r[3]|
  {
    StableSort(c, StableSort(c, r[0] + r[1]) + StableSort(c, r[2] + r[3]))
  }

  lemma Merged32Sorts<T(!new)>(c: Order<T>, ra: bool, s: seq<T>, p: int, r: seq<seq<T>>)
    requires c.StrictWeak() && FourSorted(c, ra, s, p, r)
    ensures IsSortOf(c, Blocks(ra, c, s[p..p + 32]), Merged32(c, r))
  {
    hide Networked, Blocks, StableSort, Rearranges, c.StrictWeak, c.Sorted;
    var s0, s1, s2, s3 := s[p..p + 8], s[p + 8..p + 16], s[p + 16..p + 24], s[p + 24..p + 32];
    assert s[p..p + 32] == (s0 + s1) + (s2 + s3);
    BlocksOfFour(ra, c, s[p..p + 32], s0, s1, s2, s3);
    var n0, n1, n2, n3 := Networked(ra, c, s0), Networked(ra, c, s1), Networked(ra, c, s2), Networked(ra, c, s3);
    SortBoth(c, n0, r[0], n1, r[1]);
    SortBoth(c, n2, r[2], n3, r[3]);
    SortBoth(c, n0 + n1, StableSort(c, r[0] + r[1]), n2 + n3, StableSort(c, r[2] + r[3]));
  }

  lemma BlocksOfFour<T(!new)>(ra: bool, c: Order<T>, s: seq<T>, s0: seq<T>, s1: seq<T>, s2: seq<T>, s3: seq<T>)
    requires s == (s0 + s1) + (s2 + s3) && |s0| == |s1| == |s2| == |s3| == 8
    ensures Blocks(ra, c, s)
            == (Networked(ra, c, s0) + Networked(ra, c, s1)) + (Networked(ra, c, s2) + Networked(ra, c, s3))
  {
    hide Networked;
    BlocksConcat(ra, c, s0 + s1, s2 + s3);
    BlocksConcat(ra, c, s0, s1);
    BlocksConcat(ra, c, s2, s3);
  }

  /** Sorting the concatenation of two sorts sorts what they are the sorts of. */
  lemma SortBoth<T(!new)>(c: Order<T>, p: seq<T>, x: seq<T>, q: seq<T>, y: seq<T>)
    requires c.StrictWeak() && Rearranges(c, p, x) && Rearranges(c, q, y)
    ensures IsSortOf(c, p + q, StableSort(c, x + y))
  {
    RearrangesConcat(c, p, x, q, y);
    SortRearranges(c, x + y);
  }

  /** The elements from `p` on are the four sorted chunks `r` of `w` elements each. */
  ghost predicate Reads<T(!new)>(c: Order<T>, s: seq<T>, p: int, w: nat, r: seq<seq<T>>) {
    && 0 <= p && p + 4 * w <= |s| && |r| == 4
    && |r[0]| == |r[1]| == |r[2]| == |r[3]| == w
    && s[p..p + w] == r[0] && s[p + w..p + 2 * w] == r[1]
    && s[p + 2 * w..p + 3 * w] == r[2] && s[p + 3 * w..p + 4 * w] == r[3]
    && c.Sorted(r[0]) && c.Sorted(r[1]) && c.Sorted(r[2]) && c.Sorted(r[3])
  }

  lemma ReadsBoth<T(!new)>(c: Order<T>, ra: bool, was: seq<T>, first: int, l: seq<seq<T>>, r: seq<seq<T>>)
    requires FourSorted(c, ra, was, first, l) && FourSorted(c, ra, was, first + 32, r)
    ensures var s := Splice(was, first, l[0] + l[1] + l[2] + l[3] + r[0] + r[1] + r[2] + r[3]);
            Reads(c, s, first, 8, l) && Reads(c, s, first + 32, 8, r)
  {
    hide c.Sorted, Networked, Rearranges, Splice;
    var x, y := l[0] + l[1] + l[2] + l[3], r[0] + r[1] + r[2] + r[3];
    assert l[0] + l[1] + l[2] + l[3] + r[0] + r[1] + r[2] + r[3] == x + y;
    SpliceTwice(was, first, x, y);
    SpliceReadFour(was, first, l[0], l[1], l[2], l[3]);
    SpliceReadFour(Splice(was, first, x), first + 32, r[0], r[1], r[2], r[3]);
    SpliceOutside(Splice(was, first, x), first + 32, y, first, first + 8);
    SpliceOutside(Splice(was, first, x), first + 32, y, first + 8, first + 16);
    SpliceOutside(Splice(was, first, x), first + 32, y, first + 16, first + 24);
    SpliceOutside(Splice(was, first, x), first + 32, y, first + 24, first + 32);
  }

  /** Two merges of atom_sort_64: four runs of `w` elements become two. */
  method MergeTwoPairs<T(!new)>(t: Traits, w: nat, src: array<T>, p: int, c: Order<T>, dst: array<T>, out: int,
                                ghost r: seq<seq<T>>, ghost lo: int, ghost was: seq<T>, ghost done: seq<T>)
    returns (end: int, ghost all: seq<T>)
    requires c.StrictWeak() && src != dst && Reads(c, src[..], p, w, r)
    requires 0 <= lo && out == lo + |done| && out + 4 * w <= dst.Length == |was|
    requires dst[..] == Splice(was, lo, done)
    modifies dst
    ensures end == out + 4 * w && |all| == |done| + 4 * w
    ensures all == done + StableSort(c, r[0] + r[1]) + StableSort(c, r[2] + r[3]) && dst[..] == Splice(was, lo, all)
  {
    hide Splice, StableSort, c.StrictWeak, c.Sorted;
    end, all := MergePair(t, w, src, p, c, dst, out, lo, was, done);
    end, all := MergePair(t, w, src, p + 2 * w, c, dst, end, lo, was, all);
  }

  /** The merges of atom_sort_64 from chunks of eight to chunks of 32. */
  method MergeEights<T(!new)>(t: Traits, a: array<T>, first: int, c: Order<T>, dst: array<T>, out: int,
                              ghost l: seq<seq<T>>, ghost r: seq<seq<T>>) returns (ghost x: seq<T>)
    requires c.StrictWeak() && a != dst && 0 <= out && out + 64 <= dst.Length
    requires Reads(c, a[..], first, 8, l) && Reads(c, a[..], first + 32, 8, r)
    modifies a, dst
    ensures |x| == 64 && dst[..] == Splice(old(dst[..]), out, x)
    ensures a[..] == Splice(old(a[..]), first, Merged32(c, l) + Merged32(c, r))
  {
    hide Splice, c.StrictWeak, c.Sorted, StableSort;
    ghost var was, dstWas := a[..], dst[..];
    ghost var m := [StableSort(c, l[0] + l[1]), StableSort(c, l[2] + l[3]), StableSort(c, r[0] + r[1]),
                    StableSort(c, r[2] + r[3])];
    NoSplice(dstWas, out);
    var d;
    d, x := MergeTwoPairs(t, 8, a, first, c, dst, out, l, out, dstWas, []);
    assert x == m[0] + m[1];
    d, x := MergeTwoPairs(t, 8, a, first + 32, c, dst, d, r, out, dstWas, x);
    SpliceReadFour(dstWas, out, m[0], m[1], m[2], m[3]);
    SortSorted(c, l[0] + l[1]);
    SortSorted(c, l[2] + l[3]);
    SortSorted(c, r[0] + r[1]);
    SortSorted(c, r[2] + r[3]);
    NoSplice(was, first);
    ghost var q;
    d, q := MergeTwoPairs(t, 16, dst, out, c, a, first, m, first, was, []);
    assert q == Merged32(c, l) + Merged32(c, r);
  }

  /** atom_sort_64 without its last merge. */
  method SortHalves<T(!new)>(t: Traits, a: array<T>, first: int, c: Order<T>, dst: array<T>, out: int)
    returns (ghost q0: seq<T>, ghost q1: seq<T>, ghost m: seq<T>)
    requires c.StrictWeak() && a != dst
    requires 0 <= first && first + 64 <= a.Length && 0 <= out && out + 64 <= dst.Length
    modifies a, dst
    ensures |q0| == |q1| == 32 && c.Sorted(q0) && c.Sorted(q1) && |m| == 64
    ensures IsSortOf(c, Blocks(t.randomAccess, c, old(a[first..first + 64])), StableSort(c, q0 + q1))
    ensures dst[..] == Splice(old(dst[..]), out, m) && a[..] == Splice(old(a[..]), first, q0 + q1)
  {
    ghost var was := a[..];
    ghost var l, r, all := EightAtoms(t, a, first, c);
    ReadsSorted(c, t.randomAccess, was, first, l, r);
    hide Splice, c.StrictWeak, c.Sorted, StableSort, FourSorted, IsSortOf;
    q0, q1 := Merged32(c, l), Merged32(c, r);
    m := MergeEights(t, a, first, c, dst, out, l, r);
    SpliceOver(was, first, q0 + q1, first, all);
  }

  /** atom_sort_64: sorts the 64 elements at `first` into `dst` at `out`, by eight chunks of eight
      that are merged back and forth. */
  method AtomSort64<T(!new)>(t: Traits, a: array<T>, first: int, c: Order<T>, dst: array<T>, out: int)
    returns (next: int, end: int, ghost x: seq<T>, ghost y: seq<T>)
    requires c.StrictWeak() && a != dst
    requires 0 <= first && first + 64 <= a.Length && 0 <= out && out + 64 <= dst.Length
    modifies a, dst
    ensures next == first + 64 && end == out + 64 && |x| == |y| == 64
    ensures IsSortOf(c, Blocks(t.randomAccess, c, old(a[first..first + 64])), x)
    ensures dst[..] == Splice(old(dst[..]), out, x) && a[..] == Splice(old(a[..]), first, y)
  {
    hide Splice, c.StrictWeak, c.Sorted, StableSort, IsSortOf, Blocks;
    ghost var was, dstWas := a[..], dst[..];
    ghost var q0, q1, m := SortHalves(t, a, first, c, dst, out);
    SpliceReadTwo(was, first, q0, q1);
    y := q0 + q1;
    assert a[first..first + 32] == q0 && a[first + 32..first + 64] == q1;
    ghost var half := dst[..];
    NoSplice(half, out);
    end, x := MergePair(t, 32, a, first, c, dst, out, out, half, []);
    assert x == StableSort(c, q0 + q1);
    assert dst[..] == Splice(Splice(dstWas, out, m), out, x);
    SpliceOver(dstWas, out, x, out, m);
    next := first + 64;
  }

  /** What atom_sort_64 computes is a sort. */
  lemma ReadsSorted<T(!new)>(c: Order<T>, ra: bool, was: seq<T>, first: int, l: seq<seq<T>>, r: seq<seq<T>>)
    requires c.StrictWeak() && FourSorted(c, ra, was, first, l) && FourSorted(c, ra, was, first + 32, r)
    ensures var s := Splice(was, first, l[0] + l[1] + l[2] + l[3] + r[0] + r[1] + r[2] + r[3]);
            Reads(c, s, first, 8, l) && Reads(c, s, first + 32, 8, r)
    ensures c.Sorted(Merged32(c, l)) && c.Sorted(Merged32(c, r))
    ensures IsSortOf(c, Blocks(ra, c, was[first..first + 64]), StableSort(c, Merged32(c, l) + Merged32(c, r)))
  {
    hide Networked, Blocks;
    ReadsBoth(c, ra, was, first, l, r);
    Merged32Sorts(c, ra, was, first, l);
    Merged32Sorts(c, ra, was, first + 32, r);
    var x, y := was[first..first + 32], was[first + 32..first + 64];
    SortBoth(c, Blocks(ra, c, x), Merged32(c, l), Blocks(ra, c, y), Merged32(c, r));
    assert was[first..first + 64] == x + y;
    BlocksConcat(ra, c, x, y);
  }

  /** The part of sort_128 for exactly 128 elements and a buffer that holds them. */
  method SortFull128<T(!new)>(t: Traits, a: array<T>, vals: int, c: Order<T>, buf: Buffer<T>) returns (end: int)
    requires c.StrictWeak() && buf.Valid() && buf.first != a && buf.size >= 128 && 0 <= vals && vals + 128 <= a.Length
    modifies a, buf.first
    ensures a[..] == Splice(old(a[..]), vals, StableSort(c, Blocks(t.randomAccess, c, old(a[vals..vals + 128]))))
    ensures end == vals + 128
    ensures buf.Kept(old(buf.first[..]))
  {
    hide Splice, Merge, c.StrictWeak, c.Sorted, StableSort, Rearranges, Blocks;
    ghost var was, bufWas := a[..], buf.first[..];
    ghost var x0, x1, y0, y1;
    var src, it0, it1;
    src, it0, x0, y0 := AtomSort64(t, a, vals, c, buf.first, 0);
    SpliceOutside(was, vals, y0, src, src + 64);
    src, it1, x1, y1 := AtomSort64(t, a, src, c, buf.first, it0);
    SpliceTwice(was, vals, y0, y1);
    SpliceTwice(bufWas, 0, x0, x1);
    SpliceReadTwo(bufWas, 0, x0, x1);
    SpliceRead(bufWas, 0, x0 + x1, buf.size);
    MergeIsSort(c, x0, x1);
    end := MergeMoveBidirectional(Exactly(64), t.Fast(), c, buf.first, 0, it0, it0, it1, a, vals, None);
    SpliceOver(was, vals, StableSort(c, x0 + x1), vals, y0 + y1);
    BothHalves(c, t.randomAccess, was[vals..vals + 128], was[vals..vals + 64], x0, was[vals + 64..vals + 128], x1);
  }

  lemma BothHalves<T(!new)>(c: Order<T>, ra: bool, s: seq<T>, l: seq<T>, x: seq<T>, r: seq<T>, y: seq<T>)
    requires c.StrictWeak() && s == l + r && |l| == 64
    requires IsSortOf(c, Blocks(ra, c, l), x) && IsSortOf(c, Blocks(ra, c, r), y)
    ensures StableSort(c, x + y) == StableSort(c, Blocks(ra, c, s))
  {
    hide Blocks;
    BlocksConcat(ra, c, l, r);
    RearrangesConcat(c, Blocks(ra, c, l), x, Blocks(ra, c, r), y);
  }

  /** One round of the loop of sort_128. */
  method NextEighth<T(!new)>(t: Traits, a: array<T>, src: int, n: int, c: Order<T>, iters: array<int>, cnt: int,
                             ghost was: seq<T>, ghost vals: int, ghost done: seq<T>) returns (p: int, ghost all: seq<T>)
    requires c.StrictWeak() && 0 < n <= 8 && src + n <= a.Length && 0 < cnt < iters.Length && iters as object != a
    requires 0 <= vals <= src <= |was| && (src - vals) % 8 == 0
    requires RunsSorted(c, Blocks(t.randomAccess, c, was[vals..src]), was, vals, done, src, iters[..], cnt - 1, a[..])
    modifies a, iters
    ensures p == src + n <= |was| && |all| == |done| + n
    ensures RunsSorted(c, Blocks(t.randomAccess, c, was[vals..p]), was, vals, all, p, iters[..], cnt, a[..])
  {
    hide Splice, Merge, c.StrictWeak, c.Sorted, StableSort, Networked, Rearranges, RunsAt, Blocks;
    ghost var s, it, q := a[..], iters[..], Blocks(t.randomAccess, c, was[vals..src]);
    SpliceOutside(was, vals, done, src, src + n);
    p := AtomSort8(Unspecified, t.randomAccess, a, src, n, c);
    ghost var m := Networked(t.randomAccess, c, was[src..p]);
    SortRearranges(c, m);
    OneMoreBlock(t.randomAccess, c, was[vals..src], was[src..p], was[vals..p]);
    iters[cnt] := p;
    assert iters[..] == it[cnt := p];
    RunRecorded(c, q, was, vals, done, src, it, cnt, s, m, p, StableSort(c, m), a[..]);
    all := done + StableSort(c, m);
  }

  lemma OneMoreBlock<T(!new)>(ra: bool, c: Order<T>, x: seq<T>, y: seq<T>, all: seq<T>)
    requires all == x + y && |x| % 8 == 0 && |y| <= 8
    ensures Blocks(ra, c, all) == Blocks(ra, c, x) + Networked(ra, c, y)
  {
    BlocksConcat(ra, c, x, y);
  }

  /** The loop of sort_128. */
  method SortEighths<T(!new)>(t: Traits, a: array<T>, vals: int, count: int, c: Order<T>, iters: array<int>)
    returns (src: int, cnt: int, ghost done: seq<T>)
    requires c.StrictWeak() && 0 <= count <= 128 && 0 <= vals && vals + count <= a.Length
    requires iters.Length == 17 && iters[0] == vals && iters as object != a
    modifies a, iters
    ensures src == vals + count && 1 <= cnt <= 17
    ensures RunsSorted(c, Blocks(t.randomAccess, c, old(a[vals..src])), old(a[..]), vals, done, src, iters[..],
                       cnt - 1, a[..])
  {
    hide RunsSorted, c.StrictWeak, Blocks;
    ghost var was := a[..];
    done, cnt, src := [], 1, vals;
    var rem := count;
    NoRuns(c, was, vals, iters[..]);
    NoBlocks(t.randomAccess, c, was[vals..src]);
    while rem != 0
      invariant 0 <= rem && src == vals + count - rem && |done| == count - rem
      invariant 1 <= cnt <= 17 && (rem > 0 ==> src - vals == 8 * (cnt - 1))
      invariant RunsSorted(c, Blocks(t.randomAccess, c, was[vals..src]), was, vals, done, src, iters[..], cnt - 1,
                           a[..])
    {
      var p;
      p, done := NextEighth(t, a, src, if rem < 8 then rem else 8, c, iters, cnt, was, vals, done);
      rem := rem - (p - src);
      cnt, src := cnt + 1, p;
    }
  }

  /** sort_128: sorts up to 128 elements, with a buffer of any size. */
  method Sort128<T(!new)>(t: Traits, a: array<T>, vals: int, count: int, c: Order<T>, buf: Buffer<T>) returns (end: int)
    requires c.StrictWeak() && buf.Valid() && buf.first != a && 0 <= count <= 128 && 0 <= vals
             && vals + count <= a.Length
    modifies a, buf.first
    ensures a[..] == Splice(old(a[..]), vals, StableSort(c, Blocks(t.randomAccess, c, old(a[vals..vals + count]))))
    ensures end == vals + count
    ensures buf.Kept(old(buf.first[..]))
  {
    hide Splice, c.StrictWeak, c.Sorted, StableSort, RunsSorted, Blocks;
    if count == 128 && buf.size >= 128 {
      end := SortFull128(t, a, vals, c, buf);
      return;
    }
    ghost var was, bufWas := a[..], buf.first[..];
    var iters := new int[17];
    iters[0] := vals;
    assert a[..] == was && buf.first[..] == bufWas;
    var src, cnt;
    ghost var done;
    src, cnt, done := SortEighths(t, a, vals, count, c, iters);
    assert buf.first[..] == bufWas;
    ghost var p := Blocks(t.randomAccess, c, was[vals..src]);
    RunsSoFar(c, p, was, vals, done, src, iters[..], cnt - 1, a[..]);
    hide Rearranges, RunsAt;
    MergeSortedRuns(t, a, iters, 0, cnt - 1, c, buf);
    RunsMerged(c, p, was, vals, done, a[..]);
    end := src;
  }
}
