/** The sorting network for eight elements (swap_branchless, network_sort_8) and the choice
    between it and the insertion sort (atom_sort_8) of seq/algorithm.hpp. */
module NetworkSort {
  import opened Ordering
  import opened StableSorting
  import opened Ranges
  import opened SmallSorts
  import opened Bidirectional

  /** One comparator of the network: exchanges two elements if the right one is less. */
  function CheckSwap<T(!new)>(c: Order<T>, s: seq<T>, l: int, r: int): (t: seq<T>)
    requires 0 <= l < r < |s|
    ensures |t| == |s|
  {
    if c.Less(s[r], s[l]) then s[l := s[r]][r := s[l]] else s
  }

  ghost predicate Leq<T(!new)>(c: Order<T>, s: seq<T>, i: int, j: int)
    requires 0 <= i < |s| && 0 <= j < |s|
  {
    !c.Less(s[j], s[i])
  }

  function Stage1<T(!new)>(c: Order<T>, s: seq<T>): (r: seq<T>)
    requires |s| == 8
    ensures |r| == 8
  {
    var s0 := CheckSwap(c, s, 0, 1);
    var s1 := CheckSwap(c, s0, 2, 3);
    var s2 := CheckSwap(c, s1, 4, 5);
    CheckSwap(c, s2, 6, 7)
  }

  lemma Stage1Orders<T(!new)>(c: Order<T>, s: seq<T>, r: seq<T>)
    requires c.StrictWeak() && |s| == 8 && r == Stage1(c, s)
    ensures Leq(c, r, 0, 1) && Leq(c, r, 2, 3) && Leq(c, r, 4, 5) && Leq(c, r, 6, 7)
  {
  }

  function Stage2<T(!new)>(c: Order<T>, s: seq<T>): (r: seq<T>)
    requires |s| == 8
    ensures |r| == 8
  {
    var s0 := CheckSwap(c, s, 0, 2);
    var s1 := CheckSwap(c, s0, 1, 3);
    var s2 := CheckSwap(c, s1, 4, 6);
    CheckSwap(c, s2, 5, 7)
  }

  lemma Stage2Orders<T(!new)>(c: Order<T>, s: seq<T>, r: seq<T>)
    requires c.StrictWeak() && |s| == 8 && r == Stage2(c, s)
    requires Leq(c, s, 0, 1) && Leq(c, s, 2, 3) && Leq(c, s, 4, 5) && Leq(c, s, 6, 7)
    ensures Leq(c, r, 0, 1) && Leq(c, r, 0, 2) && Leq(c, r, 1, 3) && Leq(c, r, 2, 3) && Leq(c, r, 4, 5)
    ensures Leq(c, r, 4, 6) && Leq(c, r, 5, 7) && Leq(c, r, 6, 7)
  {
  }

  function Stage3<T(!new)>(c: Order<T>, s: seq<T>): (r: seq<T>)
    requires |s| == 8
    ensures |r| == 8
  {
    var s0 := CheckSwap(c, s, 0, 4);
    var s1 := CheckSwap(c, s0, 1, 5);
    var s2 := CheckSwap(c, s1, 2, 6);
    CheckSwap(c, s2, 3, 7)
  }

  lemma Stage3Orders<T(!new)>(c: Order<T>, s: seq<T>, r: seq<T>)
    requires c.StrictWeak() && |s| == 8 && r == Stage3(c, s)
    requires Leq(c, s, 0, 1) && Leq(c, s, 0, 2) && Leq(c, s, 1, 3) && Leq(c, s, 2, 3) && Leq(c, s, 4, 5)
    requires Leq(c, s, 4, 6) && Leq(c, s, 5, 7) && Leq(c, s, 6, 7)
    ensures Leq(c, r, 0, 1) && Leq(c, r, 0, 2) && Leq(c, r, 0, 4) && Leq(c, r, 1, 3) && Leq(c, r, 1, 5)
    ensures Leq(c, r, 2, 3) && Leq(c, r, 2, 6) && Leq(c, r, 4, 5) && Leq(c, r, 4, 6) && Leq(c, r, 3, 7)
    ensures Leq(c, r, 5, 7) && Leq(c, r, 6, 7)
  {
  }

  function Stage4<T(!new)>(c: Order<T>, s: seq<T>): (r: seq<T>)
    requires |s| == 8
    ensures |r| == 8
  {
    var s0 := CheckSwap(c, s, 2, 4);
    CheckSwap(c, s0, 3, 5)
  }

  lemma Stage4Orders<T(!new)>(c: Order<T>, s: seq<T>, r: seq<T>)
    requires c.StrictWeak() && |s| == 8 && r == Stage4(c, s)
    requires Leq(c, s, 0, 1) && Leq(c, s, 0, 2) && Leq(c, s, 0, 4) && Leq(c, s, 1, 3) && Leq(c, s, 1, 5)
    requires Leq(c, s, 2, 3) && Leq(c, s, 2, 6) && Leq(c, s, 4, 5) && Leq(c, s, 4, 6) && Leq(c, s, 3, 7)
    requires Leq(c, s, 5, 7) && Leq(c, s, 6, 7)
    ensures Leq(c, r, 0, 1) && Leq(c, r, 0, 2) && Leq(c, r, 1, 3) && Leq(c, r, 2, 3) && Leq(c, r, 2, 4)
    ensures Leq(c, r, 3, 5) && Leq(c, r, 4, 5) && Leq(c, r, 4, 6) && Leq(c, r, 2, 6) && Leq(c, r, 5, 7)
    ensures Leq(c, r, 6, 7) && Leq(c, r, 1, 5) && Leq(c, r, 3, 7)
  {
  }

  function Stage5<T(!new)>(c: Order<T>, s: seq<T>): (r: seq<T>)
    requires |s| == 8
    ensures |r| == 8
  {
    var s0 := CheckSwap(c, s, 1, 4);
    CheckSwap(c, s0, 3, 6)
  }

  lemma Stage5Orders<T(!new)>(c: Order<T>, s: seq<T>, r: seq<T>)
    requires c.StrictWeak() && |s| == 8 && r == Stage5(c, s)
    requires Leq(c, s, 0, 1) && Leq(c, s, 0, 2) && Leq(c, s, 1, 3) && Leq(c, s, 2, 3) && Leq(c, s, 2, 4)
    requires Leq(c, s, 3, 5) && Leq(c, s, 4, 5) && Leq(c, s, 4, 6) && Leq(c, s, 2, 6) && Leq(c, s, 5, 7)
    requires Leq(c, s, 6, 7) && Leq(c, s, 1, 5) && Leq(c, s, 3, 7)
    ensures Leq(c, r, 0, 1) && Leq(c, r, 0, 2) && Leq(c, r, 1, 4) && Leq(c, r, 1, 3) && Leq(c, r, 2, 3)
    ensures Leq(c, r, 2, 4) && Leq(c, r, 3, 6) && Leq(c, r, 3, 5) && Leq(c, r, 4, 6) && Leq(c, r, 4, 5)
    ensures Leq(c, r, 5, 7) && Leq(c, r, 6, 7)
  {
  }

  function Stage6<T(!new)>(c: Order<T>, s: seq<T>): (r: seq<T>)
    requires |s| == 8
    ensures |r| == 8
  {
    var s0 := CheckSwap(c, s, 1, 2);
    CheckSwap(c, s0, 3, 4)
  }

  lemma Stage6Orders<T(!new)>(c: Order<T>, s: seq<T>, r: seq<T>)
    requires c.StrictWeak() && |s| == 8 && r == Stage6(c, s)
    requires Leq(c, s, 0, 1) && Leq(c, s, 0, 2) && Leq(c, s, 1, 4) && Leq(c, s, 1, 3) && Leq(c, s, 2, 3)
    requires Leq(c, s, 2, 4) && Leq(c, s, 3, 6) && Leq(c, s, 3, 5) && Leq(c, s, 4, 6) && Leq(c, s, 4, 5)
    requires Leq(c, s, 5, 7) && Leq(c, s, 6, 7)
    ensures Leq(c, r, 0, 1) && Leq(c, r, 1, 2) && Leq(c, r, 2, 3) && Leq(c, r, 3, 4) && Leq(c, r, 4, 5)
    ensures Leq(c, r, 4, 6) && Leq(c, r, 5, 7) && Leq(c, r, 6, 7)
  {
  }

  function Stage7<T(!new)>(c: Order<T>, s: seq<T>): (r: seq<T>)
    requires |s| == 8
    ensures |r| == 8
  {
    CheckSwap(c, s, 5, 6)
  }

  lemma Stage7Orders<T(!new)>(c: Order<T>, s: seq<T>, r: seq<T>)
    requires c.StrictWeak() && |s| == 8 && r == Stage7(c, s)
    requires Leq(c, s, 0, 1) && Leq(c, s, 1, 2) && Leq(c, s, 2, 3) && Leq(c, s, 3, 4) && Leq(c, s, 4, 5)
    requires Leq(c, s, 4, 6) && Leq(c, s, 5, 7) && Leq(c, s, 6, 7)
    ensures Leq(c, r, 0, 1) && Leq(c, r, 1, 2) && Leq(c, r, 2, 3) && Leq(c, r, 3, 4) && Leq(c, r, 4, 5)
    ensures Leq(c, r, 5, 6) && Leq(c, r, 6, 7)
  {
  }

  /** All nineteen comparators. */
  function Network8<T(!new)>(c: Order<T>, s: seq<T>): (r: seq<T>)
    requires |s| == 8
    ensures |r| == 8
  {
    Stage7(c, Stage6(c, Stage5(c, Stage4(c, Stage3(c, Stage2(c, Stage1(c, s)))))))
  }

  /** Exchanges keep the elements. */
  lemma NetworkPermutes<T(!new)>(c: Order<T>, s: seq<T>)
    requires |s| == 8
    ensures multiset(Network8(c, s)) == multiset(s)
  {
    hide CheckSwap;
    var s1 := Stage1(c, s);
    var s2 := Stage2(c, s1);
    var s3 := Stage3(c, s2);
    var s4 := Stage4(c, s3);
    var s5 := Stage5(c, s4);
    var s6 := Stage6(c, s5);
    TwoSwaps(c, s, 0, 1, 2, 3);
    TwoSwaps(c, CheckSwap(c, CheckSwap(c, s, 0, 1), 2, 3), 4, 5, 6, 7);
    TwoSwaps(c, s1, 0, 2, 1, 3);
    TwoSwaps(c, CheckSwap(c, CheckSwap(c, s1, 0, 2), 1, 3), 4, 6, 5, 7);
    TwoSwaps(c, s2, 0, 4, 1, 5);
    TwoSwaps(c, CheckSwap(c, CheckSwap(c, s2, 0, 4), 1, 5), 2, 6, 3, 7);
    TwoSwaps(c, s3, 2, 4, 3, 5);
    TwoSwaps(c, s4, 1, 4, 3, 6);
    TwoSwaps(c, s5, 1, 2, 3, 4);
    SwapPermutes(c, s6, 5, 6);
  }

  lemma TwoSwaps<T(!new)>(c: Order<T>, s: seq<T>, i: int, j: int, k: int, l: int)
    requires 0 <= i < j < |s| && 0 <= k < l < |s|
    ensures multiset(CheckSwap(c, CheckSwap(c, s, i, j), k, l)) == multiset(s)
  {
    SwapPermutes(c, s, i, j);
    SwapPermutes(c, CheckSwap(c, s, i, j), k, l);
  }

  lemma SwapPermutes<T(!new)>(c: Order<T>, s: seq<T>, l: int, r: int)
    requires 0 <= l < r < |s|
    ensures multiset(CheckSwap(c, s, l, r)) == multiset(s)
  {
  }

  /** The network sorts, for every strict weak order. */
  lemma NetworkSorts<T(!new)>(c: Order<T>, s: seq<T>)
    requires c.StrictWeak() && |s| == 8
    ensures c.Sorted(Network8(c, s)) && multiset(Network8(c, s)) == multiset(s)
  {
    NetworkPermutes(c, s);
    var s1 := Stage1(c, s);
    var s2 := Stage2(c, s1);
    var s3 := Stage3(c, s2);
    var s4 := Stage4(c, s3);
    var s5 := Stage5(c, s4);
    var s6 := Stage6(c, s5);
    var s7 := Stage7(c, s6);
    Stage1Orders(c, s, s1);
    Stage2Orders(c, s1, s2);
    Stage3Orders(c, s2, s3);
    Stage4Orders(c, s3, s4);
    Stage5Orders(c, s4, s5);
    Stage6Orders(c, s5, s6);
    Stage7Orders(c, s6, s7);
    hide Stage1, Stage2, Stage3, Stage4, Stage5, Stage6, Stage7;
    forall i | 0 < i < 8 ensures !c.Less(s7[i], s7[i - 1]) {
      assert Leq(c, s7, 0, 1) && Leq(c, s7, 1, 2) && Leq(c, s7, 2, 3) && Leq(c, s7, 3, 4);
      assert Leq(c, s7, 4, 5) && Leq(c, s7, 5, 6) && Leq(c, s7, 6, 7);
    }
    NeighboursSorted(c, s7);
  }

  /** swap_branchless on two cells of the range at `v`. */
  method SwapBranchless<T(!new)>(a: array<T>, v: int, l: int, r: int, c: Order<T>, ghost was: seq<T>, ghost s: seq<T>)
    returns (ghost t: seq<T>)
    requires 0 <= l < r < |s| && 0 <= v && v + |s| <= |was|
    requires a[..] == Splice(was, v, s)
    modifies a
    ensures t == CheckSwap(c, s, l, r) && a[..] == Splice(was, v, t)
  {
    t := CheckSwap(c, s, l, r);
    var swap := c.Less(a[v + r], a[v + l]);
    a[v + l], a[v + r] := if swap then a[v + r] else a[v + l], if swap then a[v + l] else a[v + r];
  }

  /** network_sort_8. */
  method NetworkSort8<T(!new)>(a: array<T>, v: int, c: Order<T>)
    requires 0 <= v <= a.Length - 8
    modifies a
    ensures a[..] == Splice(old(a[..]), v, Network8(c, old(a[v..v + 8])))
  {
    ghost var was, s := a[..], a[v..v + 8];
    assert a[..] == Splice(was, v, s);
    hide Splice, CheckSwap;
    s := SwapBranchless(a, v, 0, 1, c, was, s);
    s := SwapBranchless(a, v, 2, 3, c, was, s);
    s := SwapBranchless(a, v, 4, 5, c, was, s);
    s := SwapBranchless(a, v, 6, 7, c, was, s);
    s := SwapBranchless(a, v, 0, 2, c, was, s);
    s := SwapBranchless(a, v, 1, 3, c, was, s);
    s := SwapBranchless(a, v, 4, 6, c, was, s);
    s := SwapBranchless(a, v, 5, 7, c, was, s);
    s := SwapBranchless(a, v, 0, 4, c, was, s);
    s := SwapBranchless(a, v, 1, 5, c, was, s);
    s := SwapBranchless(a, v, 2, 6, c, was, s);
    s := SwapBranchless(a, v, 3, 7, c, was, s);
    s := SwapBranchless(a, v, 2, 4, c, was, s);
    s := SwapBranchless(a, v, 3, 5, c, was, s);
    s := SwapBranchless(a, v, 1, 4, c, was, s);
    s := SwapBranchless(a, v, 3, 6, c, was, s);
    s := SwapBranchless(a, v, 1, 2, c, was, s);
    s := SwapBranchless(a, v, 3, 4, c, was, s);
    s := SwapBranchless(a, v, 5, 6, c, was, s);
  }

  /** The elements whose stable sort atom_sort_8 leaves: with random access, eight elements first go
      through the network, which does not keep equivalent elements in order. */
  function Networked<T(!new)>(randomAccess: bool, c: Order<T>, s: seq<T>): (r: seq<T>)
    ensures |r| == |s| && multiset(r) == multiset(s)
  {
    if randomAccess && |s| == 8 then NetworkPermutes(c, s); Network8(c, s) else s
  }

  /** atom_sort_8: sorts up to eight elements. */
  method AtomSort8<T(!new)>(n: Count, randomAccess: bool, a: array<T>, vals: int, count: int, c: Order<T>)
    returns (end: int)
    requires c.StrictWeak() && 0 <= vals && 0 <= count <= 8 && vals + count <= a.Length
    requires n.Exactly? ==> n.n == count
    modifies a
    ensures a[..] == Splice(old(a[..]), vals, StableSort(c, Networked(randomAccess, c, old(a[vals..vals + count]))))
    ensures end == vals + count
  {
    hide Network8, Networked, StableSort, Splice, c.StrictWeak;
    NetworkedIsSorted(randomAccess, c, a[vals..vals + count]);
    if randomAccess && (n == Exactly(8) || count == 8) {
      NetworkSort8(a, vals, c);
      return vals + 8;
    }
    end := InsertionSort(a, vals, if n.Exactly? then n.n else count, c);
  }

  /** What the network leaves is its own stable sort; without the network, nothing is done first. */
  lemma NetworkedIsSorted<T(!new)>(randomAccess: bool, c: Order<T>, s: seq<T>)
    requires c.StrictWeak()
    ensures randomAccess && |s| == 8 ==> StableSort(c, Networked(randomAccess, c, s)) == Network8(c, s)
    ensures !(randomAccess && |s| == 8) ==> Networked(randomAccess, c, s) == s
  {
    hide Network8, StableSort, c.StrictWeak, c.Sorted;
    if |s| == 8 {
      NetworkSorts(c, s);
      SortOfSorted(c, Network8(c, s));
    }
  }

  // ----- The network is not stable -----

  /** Elements ordered by their first component; the second tells equivalent ones apart. */
  const BY_KEY := Order((x: (int, int), y: (int, int)) => x.0 < y.0)

  /** The smallest building block of the sort is stable, on all inputs of a given length, exactly
      when it does not go through the network. */
  lemma AtomStableIff(randomAccess: bool, n: nat)
    ensures AtomStable(randomAccess, n) <==> !(randomAccess && n == 8)
  {
    hide Network8, StableSort, Unlucky, BY_KEY;
    if randomAccess && n == 8 {
      UnluckySorted();
      assert Networked(randomAccess, BY_KEY, Unlucky()) == Network8(BY_KEY, Unlucky());
    }
  }

  lemma UnluckySorted()
    ensures StableSort(BY_KEY, Network8(BY_KEY, Unlucky())) != StableSort(BY_KEY, Unlucky())
  {
    hide Network8, StableSort, Filter, Unlucky, BY_KEY;
    var s, x := Unlucky(), (1, 6);
    NetworkUnstable(s);
    ByKeyIsOrder();
    FilterSort(BY_KEY, x, s);
    FilterSort(BY_KEY, x, Network8(BY_KEY, s));
    assert [(1, 6), (1, 7)][0] != [(1, 7), (1, 6)][0];
  }

  ghost predicate AtomStable(randomAccess: bool, n: nat) {
    forall s: seq<(int, int)> :: |s| == n ==>
      StableSort(BY_KEY, Networked(randomAccess, BY_KEY, s)) == StableSort(BY_KEY, s)
  }

  lemma ByKeyIsOrder()
    ensures BY_KEY.StrictWeak()
  {
  }

  /** Eight elements with two equivalent ones, (1, 6) and (1, 7), that the network exchanges. */
  function Unlucky(): (s: seq<(int, int)>)
    ensures |s| == 8
  {
    [(0, 0), (0, 1), (0, 2), (0, 3), (0, 4), (2, 5), (1, 6), (1, 7)]
  }

  lemma NetworkUnstable(s: seq<(int, int)>)
    requires s == Unlucky()
    ensures Filter(BY_KEY, (1, 6), s) == [(1, 6), (1, 7)]
    ensures Filter(BY_KEY, (1, 6), Network8(BY_KEY, s)) == [(1, 7), (1, 6)]
  {
    hide Network8, Filter, Unlucky;
    var zeros, rest, swapped := UnluckyParts(s);
    FilterConcat(BY_KEY, (1, 6), zeros, rest);
    FilterConcat(BY_KEY, (1, 6), zeros, swapped);
    FilterNone(BY_KEY, (1, 6), zeros);
    LastThree();
  }

  lemma UnluckyParts(s: seq<(int, int)>)
    returns (zeros: seq<(int, int)>, rest: seq<(int, int)>, swapped: seq<(int, int)>)
    requires s == Unlucky()
    ensures rest == [(2, 5), (1, 6), (1, 7)] && swapped == [(1, 7), (1, 6), (2, 5)]
    ensures s == zeros + rest && Network8(BY_KEY, s) == zeros + swapped
    ensures forall i :: 0 <= i < |zeros| ==> zeros[i].0 == 0
  {
    hide Network8, BY_KEY;
    zeros, rest, swapped := s[..5], [s[5], s[6], s[7]], [s[7], s[6], s[5]];
    OneSwap(s);
    SwapEnds(s);
  }

  lemma SwapEnds<T>(s: seq<T>)
    requires |s| == 8
    ensures s == s[..5] + [s[5], s[6], s[7]] && s[5 := s[7]][7 := s[5]] == s[..5] + [s[7], s[6], s[5]]
  {
  }

  lemma LastThree()
    ensures Filter(BY_KEY, (1, 6), [(2, 5), (1, 6), (1, 7)]) == [(1, 6), (1, 7)]
    ensures Filter(BY_KEY, (1, 6), [(1, 7), (1, 6), (2, 5)]) == [(1, 7), (1, 6)]
  {
    FilterConcat(BY_KEY, (1, 6), [(2, 5)], [(1, 6)] + [(1, 7)]);
    FilterConcat(BY_KEY, (1, 6), [(1, 6)], [(1, 7)]);
    FilterConcat(BY_KEY, (1, 6), [(1, 7)], [(1, 6)] + [(2, 5)]);
    FilterConcat(BY_KEY, (1, 6), [(1, 6)], [(2, 5)]);
    assert [(2, 5), (1, 6), (1, 7)] == [(2, 5)] + ([(1, 6)] + [(1, 7)]);
    assert [(1, 7), (1, 6), (2, 5)] == [(1, 7)] + ([(1, 6)] + [(2, 5)]);
  }

  /** Of such keys, the network makes one exchange, over two elements. */
  lemma OneSwap(s: seq<(int, int)>)
    requires |s| == 8 && s[5].0 == 2 && s[6].0 == s[7].0 == 1 && forall i :: 0 <= i < 5 ==> s[i].0 == 0
    ensures Network8(BY_KEY, s) == s[5 := s[7]][7 := s[5]]
  {
    var t := s[5 := s[7]][7 := s[5]];
    FirstStages(s, t);
    SortedUnchanged(BY_KEY, t);
    hide Stage1, Stage2, Stage3, Stage4, Stage5, Stage6, Stage7;
  }

  lemma FirstStages(s: seq<(int, int)>, t: seq<(int, int)>)
    requires |s| == 8 && s[5].0 == 2 && s[6].0 == s[7].0 == 1 && forall i :: 0 <= i < 5 ==> s[i].0 == 0
    requires t == s[5 := s[7]][7 := s[5]]
    ensures Stage1(BY_KEY, s) == s && Stage2(BY_KEY, s) == t && BY_KEY.Sorted(t)
  {
  }

  lemma SortedUnchanged<T(!new)>(c: Order<T>, s: seq<T>)
    requires |s| == 8 && c.Sorted(s)
    ensures Stage3(c, s) == s && Stage4(c, s) == s && Stage5(c, s) == s && Stage6(c, s) == s && Stage7(c, s) == s
  {
  }
}
