/** The documentation calls net_sort a stable sort. When it is one. */
module Stability {
  import opened Chunks
  import opened NetSort
  import opened NetworkSort
  import opened Ordering
  import opened StableSorting
  import opened WaveSort

  /** Whether net_sort_size is a stable sort of `n` elements, whatever they are and whatever their order. */
  ghost predicate AlwaysStable(randomAccess: bool, n: nat) {
    forall c: Order<(int, int)>, s: seq<(int, int)> :: c.StrictWeak() && |s| == n ==>
      NetSorted(randomAccess, c, s) == StableSort(c, s)
  }

  /** The sort is stable exactly for iterators without random access and for fewer than 16 elements. */
  lemma NetStableIff(randomAccess: bool, n: nat)
    ensures AlwaysStable(randomAccess, n) <==> !randomAccess || n < 16
  {
    hide NetSorted, StableSort;
    if !randomAccess || n < 16 {
      forall c: Order<(int, int)>, s: seq<(int, int)> | c.StrictWeak() && |s| == n
        ensures NetSorted(randomAccess, c, s) == StableSort(c, s)
      {
        NetSorts(randomAccess, c, s);
      }
    } else {
      ByKeyIsOrder();
      WitnessUnstable(Witness(n));
    }
  }

  /** Elements that go through the network, because they begin with more runs than there is room for. */
  function Witness(n: nat): (s: seq<(int, int)>)
    requires n >= 16
    ensures |s| == n
  {
    Unlucky() + WitnessTail(n)
  }

  function WitnessTail(n: nat): (s: seq<(int, int)>)
    requires n >= 16
    ensures |s| == n - 8 && forall y :: y in s ==> y.0 != 1
  {
    [(5, 8), (2, 9), (5, 10), (2, 11)] + seq(n - 12, _ => (9, 12))
  }

  lemma WitnessUnstable(s: seq<(int, int)>)
    requires |s| >= 16 && s == Witness(|s|)
    ensures Filter(BY_KEY, (1, 6), s) == [(1, 6), (1, 7)]
    ensures Filter(BY_KEY, (1, 6), NetSorted(true, BY_KEY, s)) == [(1, 7), (1, 6)]
    ensures NetSorted(true, BY_KEY, s) != StableSort(BY_KEY, s)
  {
    hide Arranged, StableSort, Filter, Network8, Witness, Unlucky, BY_KEY;
    var x := (1, 6);
    ByKeyIsOrder();
    FilterSort(BY_KEY, x, s);
    FilterSort(BY_KEY, x, Arranged(true, BY_KEY, s));
    WitnessParts(s);
    WitnessArranged(s);
    NetworkUnstable(s[..8]);
    assert [(1, 6), (1, 7)][0] != [(1, 7), (1, 6)][0];
  }

  /** Only the first eight elements are equivalent to (1, 6). */
  lemma WitnessParts(s: seq<(int, int)>)
    requires |s| >= 16 && s == Witness(|s|)
    ensures s[..8] == Unlucky()
    ensures Filter(BY_KEY, (1, 6), s) == Filter(BY_KEY, (1, 6), s[..8])
    ensures forall y :: y in s[8..] ==> !BY_KEY.Equivalent((1, 6), y)
  {
    hide Filter, Unlucky, WitnessTail;
    assert s == s[..8] + s[8..] && s[8..] == WitnessTail(|s|);
    FilterConcat(BY_KEY, (1, 6), s[..8], s[8..]);
    FilterNone(BY_KEY, (1, 6), s[8..]);
  }

  /** The runs: six elements, two, two (of which the first would have been a run of its own), one. */
  lemma WitnessRuns(s: seq<(int, int)>)
    requires |s| >= 16 && s == Witness(|s|)
    ensures WaveDist(5, BY_KEY, s) == 11
  {
    hide RunEnd;
    WitnessKeys(s);
    hide Witness, Unlucky, InStep;
    RunEndsAt(BY_KEY, s, 2, 6, true);
    RunEndsAt(BY_KEY, s, 7, 8, false);
    RunEndsAt(BY_KEY, s, 9, 9, true);
    RunEndsAt(BY_KEY, s, 10, 10, false);
    RunEndsAt(BY_KEY, s, 11, 11, true);
    assert RunsFrom(5, BY_KEY, s, 10, 11, true, 4) == 11;
    assert RunsFrom(5, BY_KEY, s, 8, 10, false, 3) == 11;
    assert RunsFrom(5, BY_KEY, s, 8, 9, true, 3) == 11;
    assert RunsFrom(5, BY_KEY, s, 6, 7, false, 2) == 11;
    assert RunsFrom(5, BY_KEY, s, 0, 2, true, 1) == 11;
  }

  lemma WitnessKeys(s: seq<(int, int)>)
    requires |s| >= 16 && s == Witness(|s|)
    ensures !BY_KEY.Less(s[1], s[0])
    ensures forall t :: 2 <= t < 6 ==> InStep(BY_KEY, true, s[t - 1], s[t])
    ensures !InStep(BY_KEY, true, s[5], s[6]) && InStep(BY_KEY, false, s[6], s[7]) && !InStep(BY_KEY, false, s[7], s[8])
    ensures !InStep(BY_KEY, true, s[8], s[9]) && !InStep(BY_KEY, false, s[9], s[10])
            && !InStep(BY_KEY, true, s[10], s[11])
  {
  }

  lemma {:induction false} RunEndsAt<T(!new)>(c: Order<T>, s: seq<T>, k: int, e: int, up: bool)
    requires 0 < k <= e < |s| && (forall t :: k <= t < e ==> InStep(c, up, s[t - 1], s[t]))
             && !InStep(c, up, s[e - 1], s[e])
    ensures RunEnd(c, s, k, up) == e
    decreases e - k
  {
    hide InStep;
    if k < e {
      RunEndsAt(c, s, k + 1, e, up);
    }
  }

  /** If there are too many runs, the first block goes through the network. */
  lemma FirstBlock<T(!new)>(c: Order<T>, s: seq<T>, m: int)
    requires 16 <= |s| && m == (if |s| < 128 then |s| else 128) && WaveDist(5, c, s) < 16
    ensures Arranged(true, c, s) == (Network8(c, s[..8]) + Blocks(true, c, s[8..m])) + Arranged(true, c, s[m..])
  {
    hide Network8, WaveDist, Blocks;
    assert FirstSize(c, s) == m && First(true, c, s) == Blocks(true, c, s[..m]);
    FirstOfBlocks(c, s[..m]);
    assert s[..m][..8] == s[..8] && s[..m][8..] == s[8..m];
  }

  lemma FirstOfBlocks<T(!new)>(c: Order<T>, s: seq<T>)
    requires |s| > 8
    ensures Blocks(true, c, s) == Network8(c, s[..8]) + Blocks(true, c, s[8..])
  {
    hide Network8;
  }

  /** The elements behind the first block are not equivalent to (1, 6). */
  lemma WitnessArranged(s: seq<(int, int)>)
    requires |s| >= 16 && s == Witness(|s|)
    ensures Filter(BY_KEY, (1, 6), Arranged(true, BY_KEY, s)) == Filter(BY_KEY, (1, 6), Network8(BY_KEY, s[..8]))
  {
    hide Network8, WaveDist, Filter, Witness, Unlucky, Blocks, Arranged, BY_KEY;
    WitnessRuns(s);
    WitnessParts(s);
    var m := if |s| < 128 then |s| else 128;
    var head, blocks, rest := Network8(BY_KEY, s[..8]), Blocks(true, BY_KEY, s[8..m]), Arranged(true, BY_KEY, s[m..]);
    FirstBlock(BY_KEY, s, m);
    FilterConcat(BY_KEY, (1, 6), head + blocks, rest);
    FilterConcat(BY_KEY, (1, 6), head, blocks);
    NoneOfClass(BY_KEY, (1, 6), s[8..], s[8..m], blocks);
    NoneOfClass(BY_KEY, (1, 6), s[8..], s[m..], rest);
  }

  lemma NoneOfClass<T(!new)>(c: Order<T>, x: T, all: seq<T>, part: seq<T>, r: seq<T>)
    requires forall y :: y in all ==> !c.Equivalent(x, y)
    requires (forall y :: y in part ==> y in all) && multiset(r) == multiset(part)
    ensures Filter(c, x, r) == []
  {
    forall i | 0 <= i < |r| ensures !c.Equivalent(x, r[i]) {
      assert r[i] in multiset(r);
    }
    FilterNone(c, x, r);
  }
}
