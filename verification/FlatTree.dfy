/** flat_tree of seq/flat_map.hpp: sets and maps, with unique or repeated keys, in a sorted tiered
    vector. An element stands for its key wherever the source takes a key. */
module FlatTrees {
  import opened BinarySearch
  import opened NetSort
  import opened NetworkSort
  import opened Ordering
  import opened Runs
  import opened SortedSets
  import opened Stability
  import opened StableSorting
  import opened TieredVectors
  import opened Wrappers

  /** What the caller of insert promises of the range. */
  datatype Tag = Unsorted | SortedUnique | SortedEquivalent

  class FlatTree<T(!new, 0)> {
    const c: Order<T>
    const unique: bool
    const bucketKind: Kind
    const kind: Kind
    const deque: TieredVector<T>

    ghost predicate Valid()
      reads this, deque
    {
      && deque.Valid() && c.StrictWeak()
      && bucketKind.Valid() && kind.Valid() && bucketKind.Alike(kind) && (kind.Comparable? ==> kind.multi == !unique)
      && c.Sorted(deque.Elements()) && (unique ==> StrictlySorted(c, deque.Elements()))
    }

    /** The elements, in order. */
    ghost function Elements(): seq<T>
      requires deque.Valid()
      reads this, deque
    {
      deque.Elements()
    }

    /** `bucketKind` is how the buckets are searched, `kind` how the elements of one are. */
    constructor (c: Order<T>, unique: bool, bucketKind: Kind, kind: Kind, bucketSize: int)
      requires c.StrictWeak() && bucketSize > 0
      requires bucketKind.Valid() && kind.Valid() && bucketKind.Alike(kind)
               && (kind.Comparable? ==> kind.multi == !unique)
      ensures Valid() && Elements() == [] && fresh(deque)
      ensures this.c == c && this.unique == unique
    {
      this.c := c;
      this.unique := unique;
      this.bucketKind := bucketKind;
      this.kind := kind;
      deque := new TieredVector(bucketSize);
    }

    // ----- Looking up -----

    /** tvector_lower_bound on the elements. */
    method LowerBound(x: T) returns (r: int, found: bool)
      requires Valid()
      ensures 0 <= r <= |Elements()|
      ensures forall i :: 0 <= i < r ==> c.Less(Elements()[i], x)
      ensures forall i :: r <= i < |Elements()| ==> !c.Less(Elements()[i], x)
      ensures found == (kind.Comparable? && r < |Elements()| && c.Equivalent(Elements()[r], x))
    {
      ghost var s, p := Elements(), LowerProbe(c, x);
      ProbesOrdered(c, s, x);
      r, found := deque.LowerBound(bucketKind, kind, LowerProbe(c, x));
      hide LowerProbe;
      forall i | 0 <= i < |s| ensures p.Below(s[i]) == c.Less(s[i], x) {
        LowerProbeIs(c, x, s[i]);
      }
      if r < |s| {
        LowerProbeIs(c, x, s[r]);
      }
    }

    /** tvector_upper_bound: the lower bound for the negated comparator, which compares one way only. */
    method UpperBound(x: T) returns (r: int)
      requires Valid()
      ensures 0 <= r <= |Elements()|
      ensures forall i :: 0 <= i < r ==> !c.Less(x, Elements()[i])
      ensures forall i :: r <= i < |Elements()| ==> c.Less(x, Elements()[i])
    {
      ghost var s, p := Elements(), UpperProbe(c, x);
      ProbesOrdered(c, s, x);
      var found;
      var outer, inner := if kind.Comparable? then Plain else bucketKind, if kind.Comparable? then Plain else kind;
      r, found := deque.LowerBound(outer, inner, UpperProbe(c, x));
      hide UpperProbe;
      forall i | 0 <= i < |s| ensures p.Below(s[i]) == !c.Less(x, s[i]) {
        UpperProbeIs(c, x, s[i]);
      }
    }

    /** tvector_binary_search: a place of the key, or the size. */
    method BinarySearch(x: T) returns (r: int)
      requires Valid()
      ensures 0 <= r <= |Elements()|
      ensures r < |Elements()| ==> c.Equivalent(Elements()[r], x) && forall i :: 0 <= i < r ==> c.Less(Elements()[i], x)
      ensures r == |Elements()| <==> Lookup(c, Elements(), x) == None
    {
      var found;
      r, found := LowerBound(x);
      ghost var s, at := Elements(), r;
      if kind.Comparable? {
        r := if found then r else deque.size;
      } else if r != deque.size {
        var y := deque.At(r);
        if c.Less(x, y) {
          r := deque.size;
        }
      }
      LookupNone(c, s, x);
      KeyAt(c, s, x, at);
    }

    // ----- Inserting one element -----

    /** emplace_pos_multi: behind the elements with an equivalent key. */
    method EmplacePosMulti(x: T) returns (pos: int, inserted: bool)
      requires Valid() && !unique
      modifies deque
      ensures Valid() && inserted && 0 <= pos <= |old(Elements())|
      ensures Elements() == old(Elements())[..pos] + [x] + old(Elements())[pos..]
      ensures forall i :: 0 <= i < pos ==> !c.Less(x, old(Elements())[i])
      ensures forall i :: pos <= i < |old(Elements())| ==> c.Less(x, old(Elements())[i])
    {
      ghost var s := Elements();
      pos := UpperBound(x);
      InsertAmongEquals(c, s, x, pos);
      deque.Emplace(pos, x);
      inserted := true;
    }

    /** emplace_pos. */
    method EmplacePos(x: T) returns (pos: int, inserted: bool)
      requires Valid()
      modifies deque
      ensures Valid() && Emplaced(c, unique, old(Elements()), Elements(), x, pos, inserted)
    {
      if !unique {
        pos, inserted := EmplacePosMulti(x);
        return;
      }
      ghost var s := Elements();
      var found;
      pos, found := LowerBound(x);
      KeyAt(c, s, x, pos);
      LookupNone(c, s, x);
      if kind.Comparable? {
        if found {
          return pos, false;
        }
        inserted := true;
      } else if pos != deque.size {
        var y := deque.At(pos);
        inserted := c.Less(x, y);
      } else {
        inserted := true;
      }
      if inserted {
        NewKeyAt(c, s, x, pos);
        deque.Emplace(pos, x);
      }
    }

    /** emplace_pos_hint: whatever the hint, the same as without it. */
    method EmplacePosHint(hint: int, x: T) returns (pos: int, inserted: bool)
      requires Valid() && 0 <= hint <= |Elements()|
      modifies deque
      ensures Valid() && Emplaced(c, unique, old(Elements()), Elements(), x, pos, inserted)
    {
      ghost var s := Elements();
      if hint != deque.size {
        var y := deque.At(hint);
        if c.Less(x, y) {
          if !unique {
            if hint != 0 {
              var z := deque.At(hint - 1);
              if !c.Less(x, z) {
                GoodMultiHint(c, s, x, hint);
                deque.Emplace(hint, x);
                return hint, true;
              }
            }
          } else {
            var first := hint == 0;
            if !first {
              var z := deque.At(hint - 1);
              first := c.Less(z, x);
            }
            if first {
              GoodHint(c, s, x, hint);
              deque.Emplace(hint, x);
              return hint, true;
            }
          }
        }
      }
      pos, inserted := EmplacePos(x);
    }

    // ----- Inserting ranges -----

    /** assign_cat through random access iterators: sorts the elements, and takes out repeated keys,
        where comparisons of neighbours show that this is needed. */
    method Assign(items: seq<T>)
      requires Valid() && items != [] && |items| <= SIZE_MAX
      modifies deque
      ensures Valid() && Elements() == Merged(c, unique, [], NetSorted(true, c, items))
    {
      var sorted, distinct := true, true;
      var i := 1;
      while i < |items| && sorted
        invariant Valid() && 1 <= i <= |items|
        invariant sorted <==> Ascending(c, items[..i])
        invariant sorted && unique ==> (distinct <==> Increasing(c, items[..i]))
      {
        NextNeighbour(c, items, i);
        if c.Less(items[i], items[i - 1]) {
          sorted := false;
        } else if unique && !c.Less(items[i - 1], items[i]) {
          distinct := false;
        }
        i := i + 1;
      }
      FlagsMean(c, items, i);
      var r := items;
      if sorted {
        SortedStays(true, c, items);
      } else {
        r := SortElements(c, items);
      }
      hide NetSorted;
      NetSorts(true, c, items);
      MergedInOrder(c, unique, [], r);
      assert Merge(c, [], r) == r;
      if unique && (!sorted || !distinct) {
        r := Unique(c, r);
      }
      deque.Store(r);
    }

    /** insert of a range through random access iterators: appended, sorted, merged with the elements
        in front and rid of repeated keys. */
    method InsertRange(items: seq<T>, tag: Tag)
      requires Valid() && |items| <= SIZE_MAX
      requires tag == SortedUnique ==> StrictlySorted(c, items)
      requires tag == SortedEquivalent ==> c.Sorted(items)
      modifies deque
      ensures Valid() && Elements() == Merged(c, unique, old(Elements()), NetSorted(true, c, items))
    {
      hide NetSorted;
      ghost var s := Elements();
      NetSorts(true, c, items);
      if tag == SortedUnique {
        StrictIsSorted(c, items);
      }
      if |items| == 0 {
        SortedStays(true, c, items);
        assert Merge(c, s, []) == s;
        if unique {
          UniqueOfIncreasing(c, s);
        }
        return;
      }
      if deque.size == 0 {
        Assign(items);
        return;
      }
      var front := deque.ToSeq();
      var back := items;
      if tag != SortedUnique && tag != SortedEquivalent {
        back := SortElements(c, back);
      } else {
        SortedStays(true, c, items);
      }
      MergedInOrder(c, unique, s, back);
      var r := Merge(c, front, back);
      if unique {
        r := Unique(c, r);
      }
      deque.Store(r);
    }

    // ----- Erasing -----

    /** erase of a key: takes out the elements with an equivalent key, and tells how many. */
    method EraseKey(x: T) returns (n: int)
      requires Valid()
      modifies deque
      ensures Valid() && Elements() == Without(c, old(Elements()), x)
      ensures n == |old(Elements())| - |Elements()|
    {
      hide Without, ClassAt, Lookup, StrictlySorted, c.Sorted, c.StrictWeak;
      ghost var s := Elements();
      if unique {
        var pos := BinarySearch(x);
        LookupNone(c, s, x);
        if pos == deque.size {
          WithoutAllOrNone(c, s, x);
          return 0;
        }
        OneKey(c, s, x, pos);
        WithoutMiddle(c, s, x, pos, pos + 1);
        WithoutKeepsOrder(c, s, pos, pos + 1);
        deque.Erase(pos, pos + 1);
        return 1;
      }
      var low, found := LowerBound(x);
      var up := low;
      if low != deque.size {
        up := UpperBound(x);
      }
      EqualRange(c, s, x, low, up);
      WithoutMiddle(c, s, x, low, up);
      if low == up {
        assert s == s[..low] + s[low..];
        return 0;
      }
      n := up - low;
      WithoutKeepsOrder(c, s, low, up);
      deque.Erase(low, up);
    }
  }

  /** Contents after a range `tail`, already sorted, was merged behind `s`. */
  ghost function Merged<T(!new)>(c: Order<T>, unique: bool, s: seq<T>, tail: seq<T>): seq<T> {
    if unique then UniqueOf(c, Merge(c, s, tail)) else Merge(c, s, tail)
  }

  lemma MergedInOrder<T(!new)>(c: Order<T>, unique: bool, s: seq<T>, tail: seq<T>)
    requires c.StrictWeak() && c.Sorted(s) && c.Sorted(tail)
    ensures c.Sorted(Merged(c, unique, s, tail)) && (unique ==> StrictlySorted(c, Merged(c, unique, s, tail)))
  {
    MergeSorted(c, s, tail);
    if unique {
      UniqueStrict(c, Merge(c, s, tail));
      StrictIsSorted(c, Merged(c, unique, s, tail));
    }
  }

  /** Inserting a range: every key of either side is there; where both sides have it, the elements
      present before win. With repeated keys nothing is lost, and they come first. */
  lemma MergedMeans<T(!new)>(c: Order<T>, s: seq<T>, tail: seq<T>, x: T)
    requires c.StrictWeak() && c.Sorted(s) && c.Sorted(tail)
    ensures Lookup(c, Merged(c, true, s, tail), x)
         == if Lookup(c, s, x).Some? then Lookup(c, s, x) else Lookup(c, tail, x)
    ensures Filter(c, x, Merged(c, false, s, tail)) == Filter(c, x, s) + Filter(c, x, tail)
    ensures multiset(Merged(c, false, s, tail)) == multiset(s) + multiset(tail)
  {
    MergeSorted(c, s, tail);
    UniqueLookup(c, Merge(c, s, tail), x);
    LookupInMerge(c, s, tail, x);
    FilterMerge(c, x, s, tail);
    MergePermutes(c, s, tail);
  }

  /** The documentation promises that range insertion keeps equivalent new elements in order, if the
      container is told to be stable. With random access iterators, it does so, whatever the
      elements, exactly for fewer than 16 of them. */
  lemma RangeStableIff(n: nat)
    ensures RangeAlwaysStable(n) <==> n < 16
  {
    hide NetSorted, StableSort;
    if n < 16 {
      forall c: Order<(int, int)>, s: seq<(int, int)>, items: seq<(int, int)>
        | c.StrictWeak() && c.Sorted(s) && |items| == n
        ensures Merged(c, false, s, NetSorted(true, c, items)) == StableSort(c, s + items)
      {
        NetSorts(true, c, items);
        SortConcat(c, s, items);
        SortOfSorted(c, s);
      }
    } else {
      var items := Witness(n);
      ByKeyIsOrder();
      WitnessUnstable(items);
      MergeNone(BY_KEY, [], NetSorted(true, BY_KEY, items));
      assert [] + items == items;
      assert Merged(BY_KEY, false, [], NetSorted(true, BY_KEY, items)) != StableSort(BY_KEY, [] + items);
    }
  }

  ghost predicate RangeAlwaysStable(n: nat) {
    forall c: Order<(int, int)>, s: seq<(int, int)>, items: seq<(int, int)> ::
      c.StrictWeak() && c.Sorted(s) && |items| == n ==>
        Merged(c, false, s, NetSorted(true, c, items)) == StableSort(c, s + items)
  }

  /** With unique keys, one of several new elements with the same key is kept: the first of them, whatever the
      elements, exactly for fewer than 16. */
  lemma FirstKeptIff(n: nat)
    ensures FirstAlwaysKept(n) <==> n < 16
  {
    hide NetSorted, StableSort, Lookup, Merged;
    if n < 16 {
      forall c: Order<(int, int)>, s: seq<(int, int)>, items: seq<(int, int)>, x: (int, int)
        | c.StrictWeak() && StrictlySorted(c, s) && |items| == n
        ensures KeepsFirst(c, s, items, x)
      {
        var tail := NetSorted(true, c, items);
        StrictIsSorted(c, s);
        NetSorts(true, c, items);
        MergedMeans(c, s, tail, x);
        SortKeepsLookup(c, items, x);
      }
    } else {
      var items, x := Witness(n), (1, 6);
      LaterKept(items);
      assert !KeepsFirst(BY_KEY, [], items, x);
    }
  }

  /** The element with the key of `x`, after a range was inserted: the one present, or the first new one. */
  ghost predicate KeepsFirst<T(!new)>(c: Order<T>, s: seq<T>, items: seq<T>, x: T) {
    Lookup(c, Merged(c, true, s, NetSorted(true, c, items)), x)
    == if Lookup(c, s, x).Some? then Lookup(c, s, x) else Lookup(c, items, x)
  }

  ghost predicate FirstAlwaysKept(n: nat) {
    forall c: Order<(int, int)>, s: seq<(int, int)>, items: seq<(int, int)>, x: (int, int) ::
      c.StrictWeak() && StrictlySorted(c, s) && |items| == n ==> KeepsFirst(c, s, items, x)
  }

  lemma SortKeepsLookup<T(!new)>(c: Order<T>, s: seq<T>, x: T)
    requires c.StrictWeak()
    ensures Lookup(c, StableSort(c, s), x) == Lookup(c, s, x)
  {
    FilterSort(c, x, s);
  }

  /** Sixteen elements or more of which an empty container keeps (1, 7), although (1, 6) comes first. */
  lemma LaterKept(items: seq<(int, int)>)
    requires |items| >= 16 && items == Witness(|items|)
    ensures BY_KEY.StrictWeak() && !KeepsFirst(BY_KEY, [], items, (1, 6))
  {
    hide NetSorted, StableSort, BY_KEY, Witness, Merged;
    var x, tail := (1, 6), NetSorted(true, BY_KEY, items);
    ByKeyIsOrder();
    NetSorts(true, BY_KEY, items);
    WitnessUnstable(items);
    MergedMeans(BY_KEY, [], tail, x);
    assert Lookup(BY_KEY, tail, x) == Some((1, 7)) && Lookup(BY_KEY, items, x) == Some((1, 6));
  }

  /** Sorts a sequence with net_sort through random access iterators. */
  method SortElements<T(!new, 0)>(c: Order<T>, s: seq<T>) returns (r: seq<T>)
    requires c.StrictWeak() && |s| <= SIZE_MAX
    ensures r == NetSorted(true, c, s)
  {
    hide NetSorted, c.StrictWeak;
    var a := new T[|s|](i requires 0 <= i < |s| => s[i]);
    assert a[..] == s && s[0..|s|] == s && a[0..|s|] == s;
    NetSorts(true, c, s);
    SameLength(NetSorted(true, c, s), s);
    var taken := NetSortSize(Traits(true, false), a, 0, |s|, c, Sized(DEFAULT_BUFFER));
    r := a[..];
  }

  lemma SameLength<T>(r: seq<T>, s: seq<T>)
    requires multiset(r) == multiset(s)
    ensures |r| == |s|
  {
    assert |multiset(r)| == |r| && |multiset(s)| == |s|;
  }

  /** std::unique and erase of what it leaves behind. */
  method Unique<T(!new)>(c: Order<T>, s: seq<T>) returns (r: seq<T>)
    ensures r == UniqueOf(c, s)
  {
    r := [];
    for i := 0 to |s|
      invariant r == UniqueOf(c, s[..i]) && (i > 0 ==> r != [])
    {
      assert s[..i + 1][..i] == s[..i];
      if r == [] || c.Less(r[|r| - 1], s[i]) {
        r := r + [s[i]];
      }
    }
    assert s[..|s|] == s;
  }

  /** What emplacing does: with unique keys, nothing if the key is present already; otherwise the
      element goes where its key belongs, and behind its equivalents. */
  ghost predicate Emplaced<T(!new)>(c: Order<T>, unique: bool, s: seq<T>, r: seq<T>, x: T, pos: int, inserted: bool) {
    && 0 <= pos <= |s|
    && inserted == (!unique || Lookup(c, s, x) == None)
    && (inserted ==> r == s[..pos] + [x] + s[pos..])
    && (inserted ==> (forall i :: 0 <= i < pos ==> !c.Less(x, s[i])) && forall i :: pos <= i < |s| ==> c.Less(x, s[i]))
    && (!inserted ==> r == s && pos < |s| && c.Equivalent(s[pos], x))
  }

  /** Emplacing adds one key to the abstract map, if it is not there, and changes no other. */
  lemma EmplacedMeans<T(!new)>(c: Order<T>, s: seq<T>, r: seq<T>, x: T, pos: int, inserted: bool, y: T)
    requires c.StrictWeak() && Emplaced(c, true, s, r, x, pos, inserted)
    ensures Lookup(c, r, y) == if inserted && c.Equivalent(y, x) then Some(x) else Lookup(c, s, y)
  {
    if inserted {
      assert s == s[..pos] + s[pos..];
      LookupAfterInsert(c, s[..pos], x, s[pos..], y);
    }
  }

  ghost predicate Ascending<T(!new)>(c: Order<T>, s: seq<T>) {
    forall i :: 0 < i < |s| ==> !c.Less(s[i], s[i - 1])
  }

  ghost predicate Increasing<T(!new)>(c: Order<T>, s: seq<T>) {
    forall i :: 0 < i < |s| ==> c.Less(s[i - 1], s[i])
  }

  /** One more comparison of neighbours. */
  lemma NextNeighbour<T(!new)>(c: Order<T>, s: seq<T>, i: int)
    requires 0 < i < |s|
    ensures Ascending(c, s[..i + 1]) <==> Ascending(c, s[..i]) && !c.Less(s[i], s[i - 1])
    ensures Increasing(c, s[..i + 1]) <==> Increasing(c, s[..i]) && c.Less(s[i - 1], s[i])
  {
    var t, u := s[..i], s[..i + 1];
    assert u[i] == s[i] && u[i - 1] == s[i - 1];
    assert forall k :: 0 <= k < i ==> t[k] == u[k];
  }

  /** What the comparisons of neighbours say of the whole. */
  lemma FlagsMean<T(!new)>(c: Order<T>, s: seq<T>, n: int)
    requires c.StrictWeak() && 0 <= n <= |s|
    ensures !Ascending(c, s[..n]) ==> !c.Sorted(s)
    ensures n == |s| && Ascending(c, s[..n]) ==> c.Sorted(s)
    ensures n == |s| && Increasing(c, s[..n]) ==> UniqueOf(c, s) == s
  {
    var t := s[..n];
    if !Ascending(c, t) {
      var i :| 0 < i < |t| && c.Less(t[i], t[i - 1]);
      assert c.Less(s[i], s[i - 1]);
    }
    if n == |s| {
      assert t == s;
      if Ascending(c, t) {
        NeighboursSorted(c, s);
      }
      if Increasing(c, t) {
        UniqueOfIncreasing(c, s);
      }
    }
  }

  lemma {:induction false} UniqueOfIncreasing<T(!new)>(c: Order<T>, s: seq<T>)
    requires Increasing(c, s)
    ensures UniqueOf(c, s) == s
  {
    if s != [] {
      var front := s[..|s| - 1];
      forall i | 0 < i < |front| ensures c.Less(front[i - 1], front[i]) {
        assert c.Less(s[i - 1], s[i]);
      }
      UniqueOfIncreasing(c, front);
      assert front != [] ==> front[|front| - 1] == s[|s| - 2] && c.Less(s[|s| - 2], s[|s| - 1]);
      assert UniqueOf(c, s) == front + [s[|s| - 1]];
    }
  }

  /** The lower bound of a key tells whether it is there. */
  lemma KeyAt<T(!new)>(c: Order<T>, s: seq<T>, x: T, r: int)
    requires c.StrictWeak() && c.Sorted(s) && 0 <= r <= |s|
    requires forall i :: 0 <= i < r ==> c.Less(s[i], x)
    requires forall i :: r <= i < |s| ==> !c.Less(s[i], x)
    ensures Lookup(c, s, x) == None <==> r == |s| || c.Less(x, s[r])
  {
    LookupNone(c, s, x);
    hide Lookup;
    if r < |s| {
      if c.Less(x, s[r]) {
        forall i | 0 <= i < |s| ensures !c.Equivalent(x, s[i]) {
          if i > r {
            assert !c.Less(s[i], s[r]);
            c.LessLeq(x, s[r], s[i]);
          }
        }
      } else {
        assert c.Equivalent(x, s[r]);
      }
    }
  }

  lemma NewKeyAt<T(!new)>(c: Order<T>, s: seq<T>, x: T, r: int)
    requires c.StrictWeak() && StrictlySorted(c, s) && 0 <= r <= |s|
    requires forall i :: 0 <= i < r ==> c.Less(s[i], x)
    requires r < |s| ==> c.Less(x, s[r])
    ensures StrictlySorted(c, s[..r] + [x] + s[r..]) && c.Sorted(s[..r] + [x] + s[r..])
    ensures forall i :: r <= i < |s| ==> c.Less(x, s[i])
  {
    forall i | r <= i < |s| ensures c.Less(x, s[i]) {
      if i > r {
        assert c.Less(s[r], s[i]);
        c.LessLeq(x, s[r], s[i]);
      }
    }
    InsertAtLowerBound(c, s, x, r);
    StrictIsSorted(c, s[..r] + [x] + s[r..]);
  }

  lemma GoodHint<T(!new)>(c: Order<T>, s: seq<T>, x: T, h: int)
    requires c.StrictWeak() && StrictlySorted(c, s) && 0 <= h < |s| && c.Less(x, s[h])
    requires h == 0 || c.Less(s[h - 1], x)
    ensures var r := s[..h] + [x] + s[h..];
            StrictlySorted(c, r) && c.Sorted(r) && Emplaced(c, true, s, r, x, h, true)
  {
    forall i | 0 <= i < h ensures c.Less(s[i], x) {
      if i < h - 1 {
        assert c.Less(s[i], s[h - 1]);
        c.LessLeq(s[i], s[h - 1], x);
      }
    }
    NewKeyAt(c, s, x, h);
    StrictIsSorted(c, s);
    KeyAt(c, s, x, h);
  }

  lemma GoodMultiHint<T(!new)>(c: Order<T>, s: seq<T>, x: T, h: int)
    requires c.StrictWeak() && c.Sorted(s) && 0 < h < |s| && c.Less(x, s[h]) && !c.Less(x, s[h - 1])
    ensures var r := s[..h] + [x] + s[h..];
            c.Sorted(r) && Emplaced(c, false, s, r, x, h, true)
  {
    forall i | 0 <= i < h ensures !c.Less(x, s[i]) {
      if i < h - 1 {
        assert !c.Less(s[h - 1], s[i]);
        c.LeqTransitive(x, s[h - 1], s[i]);
      }
    }
    forall i | h <= i < |s| ensures c.Less(x, s[i]) {
      if i > h {
        assert !c.Less(s[i], s[h]);
        c.LessLeq(x, s[h], s[i]);
      }
    }
    InsertAmongEquals(c, s, x, h);
  }

  lemma OneKey<T(!new)>(c: Order<T>, s: seq<T>, x: T, pos: int)
    requires c.StrictWeak() && StrictlySorted(c, s) && 0 <= pos < |s| && c.Equivalent(s[pos], x)
    ensures ClassAt(c, s, x, pos, pos + 1)
  {
    forall k | 0 <= k < |s| ensures c.Equivalent(x, s[k]) <==> k == pos {
      if k < pos {
        assert c.Less(s[k], s[pos]);
      } else if k > pos {
        assert c.Less(s[pos], s[k]);
      }
    }
  }

  /** The elements with an equivalent key lie between the two bounds. */
  lemma EqualRange<T(!new)>(c: Order<T>, s: seq<T>, x: T, low: int, up: int)
    requires c.StrictWeak() && c.Sorted(s) && 0 <= low <= |s| && 0 <= up <= |s|
    requires forall i :: 0 <= i < low ==> c.Less(s[i], x)
    requires forall i :: low <= i < |s| ==> !c.Less(s[i], x)
    requires low == |s| ==> up == low
    requires low < |s| ==>
               (forall i :: 0 <= i < up ==> !c.Less(x, s[i])) && forall i :: up <= i < |s| ==> c.Less(x, s[i])
    ensures low <= up && ClassAt(c, s, x, low, up)
  {
    if low < |s| && up < |s| {
      assert !c.Less(s[up], x);
    }
  }

  lemma WithoutKeepsOrder<T(!new)>(c: Order<T>, s: seq<T>, i: int, j: int)
    requires 0 <= i <= j <= |s| && c.Sorted(s)
    ensures c.Sorted(s[..i] + s[j..]) && (StrictlySorted(c, s) ==> StrictlySorted(c, s[..i] + s[j..]))
  {
  }
}
