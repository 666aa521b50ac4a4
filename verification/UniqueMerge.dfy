/** unique_merge_move of seq/flat_map.hpp: the union of two sets of keys. */
module UniqueMerge {
  import opened NetworkSort
  import opened Ordering
  import opened SortedSets
  import opened StableSorting
  import opened Wrappers

  /** operator== of the elements. */
  datatype Equality<!T(!new)> = Equality(same: (T, T) -> bool) {

    predicate Same(x: T, y: T) {
      same(x, y)
    }

    /** Equal elements have equivalent keys; there may be elements with equivalent keys that differ. */
    ghost predicate Refines(c: Order<T>) {
      forall x, y :: Same(x, y) ==> c.Equivalent(x, y)
    }

    /** No element of `s` is equal to `x`. */
    ghost predicate Absent(x: T, s: seq<T>) {
      forall i :: 0 <= i < |s| ==> !Same(x, s[i])
    }
  }

  /** The elements of `t` that `s` does not have. */
  ghost function NewOnes<T(!new)>(eq: Equality<T>, s: seq<T>, t: seq<T>): (r: seq<T>)
    ensures forall i :: 0 <= i < |r| ==> r[i] in t && eq.Absent(r[i], s)
    ensures forall x :: x in t && eq.Absent(x, s) ==> x in r
  {
    if t == [] then [] else (if eq.Absent(t[0], s) then [t[0]] else []) + NewOnes(eq, s, t[1..])
  }

  /** The elements of `t` that `s` has. */
  ghost function Repeats<T(!new)>(eq: Equality<T>, s: seq<T>, t: seq<T>): (r: seq<T>)
    ensures forall i :: 0 <= i < |r| ==> r[i] in t && !eq.Absent(r[i], s)
  {
    if t == [] then [] else (if eq.Absent(t[0], s) then [] else [t[0]]) + Repeats(eq, s, t[1..])
  }

  // ----- What the union is -----

  lemma {:induction false} NewOnesStrict<T(!new)>(c: Order<T>, eq: Equality<T>, s: seq<T>, t: seq<T>)
    requires StrictlySorted(c, t)
    ensures StrictlySorted(c, NewOnes(eq, s, t))
  {
    if t != [] {
      NewOnesStrict(c, eq, s, t[1..]);
      var rest := NewOnes(eq, s, t[1..]);
      forall i | 0 <= i < |rest| ensures c.Less(t[0], rest[i]) {
        var k :| 0 <= k < |t[1..]| && t[1..][k] == rest[i];
        assert c.Less(t[0], t[k + 1]);
      }
    }
  }

  /** Of the keys that `s` does not have, nothing is left out. */
  lemma {:induction false} LookupInNewOnes<T(!new)>(c: Order<T>, eq: Equality<T>, s: seq<T>, t: seq<T>, x: T)
    requires c.StrictWeak() && eq.Refines(c) && Lookup(c, s, x) == None
    ensures Lookup(c, NewOnes(eq, s, t), x) == Lookup(c, t, x)
  {
    if t != [] {
      var head, rest := [t[0]], t[1..];
      LookupInNewOnes(c, eq, s, rest, x);
      assert t == head + rest;
      LookupConcat(c, head, rest, x);
      LookupConcat(c, head, NewOnes(eq, s, rest), x);
      LookupConcat(c, [], NewOnes(eq, s, rest), x);
      LookupNone(c, s, x);
      assert Filter(c, x, head) == if c.Equivalent(x, t[0]) then head else [];
      if c.Equivalent(x, t[0]) {
        forall i | 0 <= i < |s| ensures !eq.Same(t[0], s[i]) {
          assert !c.Equivalent(x, s[i]);
        }
      }
    }
  }

  lemma {:induction false} SameLookup<T(!new)>(c: Order<T>, s: seq<T>, x: T, y: T)
    requires c.StrictWeak() && c.Equivalent(x, y)
    ensures Lookup(c, s, x) == Lookup(c, s, y)
  {
    if s != [] {
      SameLookup(c, s[1..], x, y);
      assert c.Equivalent(x, s[0]) <==> c.Equivalent(y, s[0]);
    }
  }

  lemma {:induction false} Parted<T(!new)>(eq: Equality<T>, s: seq<T>, t: seq<T>)
    ensures multiset(NewOnes(eq, s, t)) + multiset(Repeats(eq, s, t)) == multiset(t)
    ensures |NewOnes(eq, s, t)| + |Repeats(eq, s, t)| == |t|
  {
    if t != [] {
      Parted(eq, s, t[1..]);
      assert t == [t[0]] + t[1..];
      hide eq.Absent;
    }
  }

  /** The output is sorted; it has the keys of both ranges, and where both have one, the element of the
      first range comes first. What goes to `remaining` are the elements of the second range that the
      first one has, and nothing is lost. */
  lemma UnionMeans<T(!new)>(c: Order<T>, eq: Equality<T>, s: seq<T>, t: seq<T>, x: T)
    requires c.StrictWeak() && eq.Refines(c) && StrictlySorted(c, s) && StrictlySorted(c, t)
    ensures var out, rem := Merge(c, s, NewOnes(eq, s, t)), Repeats(eq, s, t);
            && c.Sorted(out)
            && Lookup(c, out, x) == (if Lookup(c, s, x).Some? then Lookup(c, s, x) else Lookup(c, t, x))
            && |out| + |rem| == |s| + |t| && multiset(out) + multiset(rem) == multiset(s) + multiset(t)
  {
    var n := NewOnes(eq, s, t);
    StrictIsSorted(c, s);
    LookupInMerge(c, s, n, x);
    if Lookup(c, s, x) == None {
      LookupInNewOnes(c, eq, s, t, x);
    }
    Parted(eq, s, t);
    MergePermutes(c, s, n);
    NewOnesStrict(c, eq, s, t);
    StrictIsSorted(c, n);
    MergeSorted(c, s, n);
  }

  /** There are two elements with equivalent keys that are not equal, one in each range. */
  ghost predicate Differ<T(!new)>(c: Order<T>, eq: Equality<T>, s: seq<T>, t: seq<T>, i: int, j: int) {
    0 <= i < |s| && 0 <= j < |t| && c.Equivalent(t[j], s[i]) && !eq.Same(t[j], s[i])
  }

  /** Keys do not repeat in the output exactly if equality does not tell equivalent elements of the two
      ranges apart. */
  lemma UnionStrictIff<T(!new)>(c: Order<T>, eq: Equality<T>, s: seq<T>, t: seq<T>)
    requires c.StrictWeak() && eq.Refines(c) && StrictlySorted(c, s) && StrictlySorted(c, t)
    ensures StrictlySorted(c, Merge(c, s, NewOnes(eq, s, t))) <==> forall i, j :: !Differ(c, eq, s, t, i, j)
  {
    var n := NewOnes(eq, s, t);
    if i, j :| Differ(c, eq, s, t, i, j) {
      BothKept(c, eq, s, t, i, j);
    } else {
      NewOnesStrict(c, eq, s, t);
      forall k | 0 <= k < |n| ensures Lookup(c, s, n[k]) == None {
        NewKey(c, eq, s, t, n[k]);
      }
      StrictMerge(c, s, n);
    }
  }

  lemma NewKey<T(!new)>(c: Order<T>, eq: Equality<T>, s: seq<T>, t: seq<T>, x: T)
    requires x in t && eq.Absent(x, s) && forall i, j :: !Differ(c, eq, s, t, i, j)
    ensures Lookup(c, s, x) == None
  {
    var j :| 0 <= j < |t| && t[j] == x;
    LookupNone(c, s, x);
    hide Lookup;
    forall i | 0 <= i < |s| ensures !c.Equivalent(x, s[i]) {
      assert !Differ(c, eq, s, t, i, j);
    }
  }

  /** Elements that differ are both in the output. */
  lemma BothKept<T(!new)>(c: Order<T>, eq: Equality<T>, s: seq<T>, t: seq<T>, i: int, j: int)
    requires c.StrictWeak() && eq.Refines(c) && StrictlySorted(c, s) && StrictlySorted(c, t)
             && Differ(c, eq, s, t, i, j)
    ensures !StrictlySorted(c, Merge(c, s, NewOnes(eq, s, t)))
  {
    var x, n := t[j], NewOnes(eq, s, t);
    forall k | 0 <= k < |s| ensures !eq.Same(x, s[k]) {
      if k != i {
        assert !c.Equivalent(x, s[k]);
      }
    }
    StrictIsSorted(c, s);
    FilterMerge(c, x, s, n);
    InClass(c, s, x, s[i]);
    InClass(c, n, x, x);
    if StrictlySorted(c, Merge(c, s, n)) {
      OneOfEachClass(c, Merge(c, s, n), x);
      assert false;
    }
  }

  /** Two sets that have one key, with elements that differ: the merge has it twice. */
  lemma RepeatedKey() returns (s: seq<(int, int)>, t: seq<(int, int)>, eq: Equality<(int, int)>)
    ensures BY_KEY.StrictWeak() && eq.Refines(BY_KEY) && StrictlySorted(BY_KEY, s) && StrictlySorted(BY_KEY, t)
    ensures !StrictlySorted(BY_KEY, Merge(BY_KEY, s, NewOnes(eq, s, t)))
  {
    s, t, eq := [(0, 0)], [(0, 1)], Equality((x, y) => x == y);
    ByKeyIsOrder();
    BothKept(BY_KEY, eq, s, t, 0, 0);
  }

  lemma InClass<T(!new)>(c: Order<T>, s: seq<T>, x: T, y: T)
    requires y in s && c.Equivalent(x, y)
    ensures Filter(c, x, s) != []
  {
    LookupNone(c, s, x);
    var k :| 0 <= k < |s| && s[k] == y;
  }

  /** In a strictly sorted sequence, classes have one element. */
  lemma {:induction false} OneOfEachClass<T(!new)>(c: Order<T>, s: seq<T>, x: T)
    requires c.StrictWeak() && StrictlySorted(c, s)
    ensures |Filter(c, x, s)| <= 1
  {
    if s != [] {
      OneOfEachClass(c, s[1..], x);
      if c.Equivalent(x, s[0]) {
        forall i | 0 <= i < |s[1..]| ensures !c.Equivalent(x, s[1..][i]) {
          assert c.Less(s[0], s[i + 1]);
        }
        FilterNone(c, x, s[1..]);
      }
    }
  }

  lemma TwoOfAClass<T(!new)>(c: Order<T>, r: seq<T>, i: int, j: int)
    requires c.StrictWeak() && 0 <= i < j < |r| && c.Equivalent(r[i], r[j])
    ensures |Filter(c, r[i], r)| >= 2
  {
    var a, b := r[..j], r[j..];
    assert r == a + b && a[i] == r[i] && b[0] == r[j];
    FilterConcat(c, r[i], a, b);
    LookupNone(c, a, a[i]);
    LookupNone(c, b, a[i]);
    assert c.Equivalent(a[i], a[i]) && c.Equivalent(a[i], b[0]);
  }

  /** A merge of strictly sorted ranges without common keys is strictly sorted. */
  lemma StrictMerge<T(!new)>(c: Order<T>, s: seq<T>, n: seq<T>)
    requires c.StrictWeak() && StrictlySorted(c, s) && StrictlySorted(c, n)
    requires forall k :: 0 <= k < |n| ==> Lookup(c, s, n[k]) == None
    ensures StrictlySorted(c, Merge(c, s, n))
  {
    StrictIsSorted(c, s);
    StrictIsSorted(c, n);
    MergeSorted(c, s, n);
    var r := Merge(c, s, n);
    forall i, j | 0 <= i < j < |r| ensures c.Less(r[i], r[j]) {
      assert !c.Less(r[j], r[i]);
      if c.Equivalent(r[i], r[j]) {
        TwoOfAClass(c, r, i, j);
        ClassInMerge(c, s, n, r[i]);
        assert false;
      }
    }
  }

  lemma ClassInMerge<T(!new)>(c: Order<T>, s: seq<T>, n: seq<T>, x: T)
    requires c.StrictWeak() && StrictlySorted(c, s) && StrictlySorted(c, n)
    requires forall k :: 0 <= k < |n| ==> Lookup(c, s, n[k]) == None
    ensures |Filter(c, x, Merge(c, s, n))| <= 1
  {
    StrictIsSorted(c, s);
    FilterMerge(c, x, s, n);
    OneOfEachClass(c, s, x);
    OneOfEachClass(c, n, x);
    LookupNone(c, n, x);
    if Lookup(c, n, x).Some? {
      var k :| 0 <= k < |n| && c.Equivalent(x, n[k]);
      SameLookup(c, s, x, n[k]);
    }
  }

  // ----- The loops -----

  /** An output container: written through an iterator into cells made by resize, or by push_back. */
  class Sink<T> {
    var items: seq<T>
    var pos: int
    var resized: bool

    /** The elements in front of those that are written. */
    ghost var front: seq<T>

    ghost predicate Valid()
      reads this
    {
      |front| <= pos <= |items| && items[..|front|] == front && (!resized ==> pos == |items|)
    }

    ghost function Written(): seq<T>
      requires Valid()
      reads this
    {
      items[|front|..pos]
    }

    constructor (items: seq<T>)
      ensures this.items == items
    {
      this.items := items;
      pos, resized, front := |items|, false, items;
    }

    /** Makes room for `n` elements, from the beginning; or prepares to write behind the elements. */
    method Open(resize: bool, n: nat, fill: T)
      modifies this
      ensures Valid() && Written() == [] && resized == resize && (resized ==> |items| == n)
      ensures front == (if resize then [] else old(items)) && pos == |front|
    {
      resized := resize;
      if resize {
        items := if |items| < n then items + seq(n - |items|, _ => fill) else items[..n];
        pos, front := 0, [];
      } else {
        pos, front := |items|, items;
      }
    }

    method Put(x: T)
      requires Valid() && (resized ==> pos < |items|)
      modifies this
      ensures Valid() && Written() == old(Written()) + [x] && (resized ==> |items| == old(|items|))
              && pos == old(pos) + 1
      ensures resized == old(resized) && front == old(front)
    {
      ghost var w, f := Written(), |front|;
      items := if resized then items[pos := x] else items + [x];
      pos := pos + 1;
      assert items[..f] == front && items[f..pos - 1] == w && items[pos - 1] == x;
      assert items[f..pos] == w + [x];
    }

    /** erase of the cells that were not written. */
    method Finish()
      requires Valid()
      modifies this
      ensures Valid() && items == old(front) + old(Written())
    {
      if resized {
        items := items[..pos];
      }
    }
  }

  /** The elements `t` went to `kept` and `dropped`, in order, and `s` has those that were dropped. */
  ghost predicate Split<T(!new)>(c: Order<T>, eq: Equality<T>, s: seq<T>, t: seq<T>, kept: seq<T>, dropped: seq<T>) {
    && StrictlySorted(c, kept) && StrictlySorted(c, dropped)
    && multiset(kept) + multiset(dropped) == multiset(t)
    && forall k :: 0 <= k < |dropped| ==> !eq.Absent(dropped[k], s)
  }

  /** Whatever equality is: the output is sorted, nothing is lost, and where the first range has a key, its
      element comes first. */
  lemma SplitMeans<T(!new)>(c: Order<T>, eq: Equality<T>, s: seq<T>, t: seq<T>, kept: seq<T>, dropped: seq<T>, x: T)
    requires c.StrictWeak() && StrictlySorted(c, s) && Split(c, eq, s, t, kept, dropped)
    ensures var out := Merge(c, s, kept);
            && c.Sorted(out) && multiset(out) + multiset(dropped) == multiset(s) + multiset(t)
            && Lookup(c, out, x) == if Lookup(c, s, x).Some? then Lookup(c, s, x) else Lookup(c, kept, x)
  {
    StrictIsSorted(c, s);
    StrictIsSorted(c, kept);
    hide Lookup, Merge, StrictlySorted, c.Sorted, c.StrictWeak;
    MergeSorted(c, s, kept);
    MergePermutes(c, s, kept);
    LookupInMerge(c, s, kept, x);
  }

  /** What is kept, if equality never holds of elements that the order tells apart. */
  ghost predicate Exact<T(!new)>(c: Order<T>, eq: Equality<T>, s: seq<T>, t: seq<T>, kept: seq<T>, dropped: seq<T>) {
    eq.Refines(c) ==> kept == NewOnes(eq, s, t) && dropped == Repeats(eq, s, t)
  }

  /** Where the merge stands: `i` and `j` elements of the ranges are consumed. */
  ghost predicate State<T(!new)>(c: Order<T>, eq: Equality<T>, s: seq<T>, t: seq<T>, i: int, j: int, kept: seq<T>,
                                 dropped: seq<T>) {
    && 0 <= i <= |s| && 0 <= j <= |t|
    && Split(c, eq, s, t[..j], kept, dropped) && Exact(c, eq, s, t[..j], kept, dropped)
    && (i < |s| ==> forall k :: 0 <= k < |kept| ==> c.Less(kept[k], s[i]))
    && (0 < i && j < |t| ==> Past(c, eq, s[i - 1], t[j]))
  }

  /** An element of the first range that has been written, and the next of the second. */
  ghost predicate Past<T(!new)>(c: Order<T>, eq: Equality<T>, x: T, y: T) {
    !c.Less(y, x) && (eq.Refines(c) ==> !eq.Same(y, x))
  }

  lemma LessIsPast<T(!new)>(c: Order<T>, eq: Equality<T>, x: T, y: T)
    requires c.StrictWeak() && c.Less(x, y)
    ensures Past(c, eq, x, y)
  {
  }

  lemma Begin<T(!new)>(c: Order<T>, eq: Equality<T>, s: seq<T>, t: seq<T>)
    ensures State(c, eq, s, t, 0, 0, [], []) && Merge(c, s[..0], []) == []
  {
    assert t[..0] == [];
  }

  lemma Done<T(!new)>(c: Order<T>, eq: Equality<T>, s: seq<T>, t: seq<T>, kept: seq<T>, dropped: seq<T>)
    requires State(c, eq, s, t, |s|, |t|, kept, dropped)
    ensures Split(c, eq, s, t, kept, dropped) && Exact(c, eq, s, t, kept, dropped) && s[..|s|] == s
  {
    assert t[..|t|] == t;
  }

  lemma StateBounds<T(!new)>(c: Order<T>, eq: Equality<T>, s: seq<T>, t: seq<T>, i: int, j: int, kept: seq<T>,
                             dropped: seq<T>)
    requires State(c, eq, s, t, i, j, kept, dropped)
    ensures 0 <= i <= |s| && 0 <= j <= |t| && |kept| + |dropped| == j && |Merge(c, s[..i], kept)| == i + |kept|
  {
    MergePermutes(c, s[..i], kept);
    assert |multiset(kept)| == |kept| && |multiset(dropped)| == |dropped| && |multiset(t[..j])| == j;
    var m := Merge(c, s[..i], kept);
    assert |multiset(m)| == |m| && |multiset(s[..i])| == i;
  }

  /** An element of the second range between two neighbours of the first is new. */
  lemma KeyBetween<T(!new)>(c: Order<T>, eq: Equality<T>, s: seq<T>, x: T, i: int)
    requires c.StrictWeak() && eq.Refines(c) && StrictlySorted(c, s) && 0 <= i <= |s|
    requires (i > 0 ==> Past(c, eq, s[i - 1], x)) && (i < |s| ==> c.Less(x, s[i]))
    ensures eq.Absent(x, s)
  {
    forall k | 0 <= k < |s| ensures !eq.Same(x, s[k]) {
      if k < i - 1 {
        c.LessLeq(s[k], s[i - 1], x);
      } else if k > i {
        c.LessLeq(x, s[i], s[k]);
      }
    }
  }

  lemma OneOnly<T(!new)>(eq: Equality<T>, s: seq<T>, x: T, rest: seq<T>)
    ensures NewOnes(eq, s, [x] + rest) == (if eq.Absent(x, s) then [x] else []) + NewOnes(eq, s, rest)
    ensures Repeats(eq, s, [x] + rest) == (if eq.Absent(x, s) then [] else [x]) + Repeats(eq, s, rest)
    ensures NewOnes(eq, s, []) == Repeats(eq, s, []) == []
  {
    hide eq.Absent;
    assert ([x] + rest)[1..] == rest;
  }

  lemma {:induction false} OneMore<T(!new)>(eq: Equality<T>, s: seq<T>, t: seq<T>, x: T)
    ensures NewOnes(eq, s, t + [x]) == NewOnes(eq, s, t) + if eq.Absent(x, s) then [x] else []
    ensures Repeats(eq, s, t + [x]) == Repeats(eq, s, t) + if eq.Absent(x, s) then [] else [x]
  {
    hide NewOnes, Repeats, eq.Absent;
    if t == [] {
      OneOnly(eq, s, x, []);
      assert t + [x] == [x] + [];
    } else {
      var y, rest := t[0], t[1..];
      OneMore(eq, s, rest, x);
      OneOnly(eq, s, y, rest);
      OneOnly(eq, s, y, rest + [x]);
      assert t == [y] + rest && t + [x] == [y] + (rest + [x]);
    }
  }

  /** The elements consumed so far go before the next. */
  lemma BelowNext<T(!new)>(c: Order<T>, t: seq<T>, j: int, r: seq<T>)
    requires StrictlySorted(c, t) && 0 <= j < |t| && multiset(r) <= multiset(t[..j])
    ensures forall k :: 0 <= k < |r| ==> c.Less(r[k], t[j])
  {
    forall k | 0 <= k < |r| ensures c.Less(r[k], t[j]) {
      assert r[k] in multiset(r);
      assert r[k] in t[..j];
    }
  }

  lemma KeepNext<T(!new)>(c: Order<T>, eq: Equality<T>, s: seq<T>, t: seq<T>, j: int, kept: seq<T>, dropped: seq<T>)
    requires StrictlySorted(c, t) && 0 <= j < |t|
    requires Split(c, eq, s, t[..j], kept, dropped) && Exact(c, eq, s, t[..j], kept, dropped)
    requires eq.Refines(c) ==> eq.Absent(t[j], s)
    ensures Split(c, eq, s, t[..j + 1], kept + [t[j]], dropped) && Exact(c, eq, s, t[..j + 1], kept + [t[j]], dropped)
  {
    hide eq.Absent, eq.Refines;
    BelowNext(c, t, j, kept);
    OneMore(eq, s, t[..j], t[j]);
    assert t[..j + 1] == t[..j] + [t[j]];
  }

  lemma DropNext<T(!new)>(c: Order<T>, eq: Equality<T>, s: seq<T>, t: seq<T>, j: int, kept: seq<T>, dropped: seq<T>)
    requires StrictlySorted(c, t) && 0 <= j < |t|
    requires Split(c, eq, s, t[..j], kept, dropped) && Exact(c, eq, s, t[..j], kept, dropped)
    requires !eq.Absent(t[j], s)
    ensures Split(c, eq, s, t[..j + 1], kept, dropped + [t[j]]) && Exact(c, eq, s, t[..j + 1], kept, dropped + [t[j]])
  {
    hide eq.Absent, eq.Refines;
    BelowNext(c, t, j, dropped);
    OneMore(eq, s, t[..j], t[j]);
    assert t[..j + 1] == t[..j] + [t[j]];
  }

  lemma MergeEndsRight<T(!new)>(c: Order<T>, a: seq<T>, b: seq<T>, x: T)
    requires c.AllLeq(a, [x])
    ensures Merge(c, a, b + [x]) == Merge(c, a, b) + [x]
  {
    MergeSplit(c, a, [], b, [x]);
    assert a + [] == a && Merge(c, [], [x]) == [x];
  }

  lemma MergeEndsLeft<T(!new)>(c: Order<T>, a: seq<T>, b: seq<T>, x: T)
    requires c.AllLess(b, [x])
    ensures Merge(c, a + [x], b) == Merge(c, a, b) + [x]
  {
    MergeSplit(c, a, [x], b, []);
    assert b + [] == b && Merge(c, [x], []) == [x];
  }

  lemma TakeSecond<T(!new)>(c: Order<T>, eq: Equality<T>, s: seq<T>, t: seq<T>, i: int, j: int, kept: seq<T>,
                            dropped: seq<T>)
    requires c.StrictWeak() && StrictlySorted(c, s) && StrictlySorted(c, t) && State(c, eq, s, t, i, j, kept, dropped)
    requires j < |t| && (i == |s| || c.Less(t[j], s[i]))
    ensures State(c, eq, s, t, i, j + 1, kept + [t[j]], dropped)
    ensures Merge(c, s[..i], kept + [t[j]]) == Merge(c, s[..i], kept) + [t[j]]
  {
    if eq.Refines(c) {
      KeyBetween(c, eq, s, t[j], i);
    }
    KeepNext(c, eq, s, t, j, kept, dropped);
    hide Split, Exact, Merge, eq.Refines;
    if 0 < i {
      if j + 1 < |t| {
        c.LeqLess(s[i - 1], t[j], t[j + 1]);
        LessIsPast(c, eq, s[i - 1], t[j + 1]);
      }
      FirstsBelow(c, s, i, t[j]);
    }
    MergeEndsRight(c, s[..i], kept, t[j]);
  }

  lemma FirstsBelow<T(!new)>(c: Order<T>, s: seq<T>, i: int, x: T)
    requires c.StrictWeak() && StrictlySorted(c, s) && 0 < i <= |s| && !c.Less(x, s[i - 1])
    ensures c.AllLeq(s[..i], [x])
  {
    forall k | 0 <= k < i ensures !c.Less(x, s[..i][k]) {
      if k < i - 1 {
        c.LessLeq(s[k], s[i - 1], x);
      }
    }
  }

  lemma SkipEqual<T(!new)>(c: Order<T>, eq: Equality<T>, s: seq<T>, t: seq<T>, i: int, j: int, kept: seq<T>,
                           dropped: seq<T>)
    requires c.StrictWeak() && StrictlySorted(c, s) && StrictlySorted(c, t) && State(c, eq, s, t, i, j, kept, dropped)
    requires j < |t| && i < |s| && eq.Same(t[j], s[i]) && !c.Less(t[j], s[i])
    ensures State(c, eq, s, t, i, j + 1, kept, dropped + [t[j]])
    ensures j + 1 < |t| ==> c.Less(s[i], t[j + 1])
  {
    if j + 1 < |t| {
      c.LeqLess(s[i], t[j], t[j + 1]);
      if i > 0 {
        assert c.Less(s[i - 1], s[i]);
        c.LessLeq(s[i - 1], s[i], t[j + 1]);
        LessIsPast(c, eq, s[i - 1], t[j + 1]);
      }
    }
    assert !eq.Absent(t[j], s);
    DropNext(c, eq, s, t, j, kept, dropped);
  }

  lemma TakeFirst<T(!new)>(c: Order<T>, eq: Equality<T>, s: seq<T>, t: seq<T>, i: int, j: int, kept: seq<T>,
                           dropped: seq<T>)
    requires c.StrictWeak() && StrictlySorted(c, s) && State(c, eq, s, t, i, j, kept, dropped)
    requires i < |s| && (j == |t| || Past(c, eq, s[i], t[j]))
    ensures State(c, eq, s, t, i + 1, j, kept, dropped)
    ensures Merge(c, s[..i + 1], kept) == Merge(c, s[..i], kept) + [s[i]]
  {
    hide Split, Exact, Past, Merge;
    if i + 1 < |s| {
      forall k | 0 <= k < |kept| ensures c.Less(kept[k], s[i + 1]) {
        c.LessLeq(kept[k], s[i], s[i + 1]);
      }
    }
    MergeEndsLeft(c, s[..i], kept, s[i]);
    assert s[..i + 1] == s[..i] + [s[i]];
  }

  // ----- The merge -----

  /** The output iterators of the merge; `remaining` may be null. */
  ghost predicate Writing<T>(out: Sink<T>, remaining: Sink?<T>, n: int, m: int, w: seq<T>, q: seq<T>)
    reads out, remaining
  {
    && WritingTo(out, n, w)
    && (remaining != null ==> remaining != out && WritingTo(remaining, m, q))
  }

  ghost predicate WritingTo<T>(out: Sink<T>, n: int, w: seq<T>)
    reads out
  {
    out.Valid() && out.Written() == w && (out.resized ==> |out.items| == n && out.front == [] && |w| == out.pos)
  }

  /** The first inner loop: elements of the second range that go before the next of the first. */
  method DrainSecond<T(!new)>(out: Sink<T>, remaining: Sink?<T>, s: seq<T>, t: seq<T>, c: Order<T>, i: int, j0: int,
                              ghost eq: Equality<T>, ghost kept0: seq<T>, ghost dropped: seq<T>)
    returns (j: int, ghost kept: seq<T>)
    requires c.StrictWeak() && StrictlySorted(c, s) && StrictlySorted(c, t)
    requires State(c, eq, s, t, i, j0, kept0, dropped)
    requires Writing(out, remaining, |s| + |t|, |t|, Merge(c, s[..i], kept0), dropped)
    modifies out
    ensures State(c, eq, s, t, i, j, kept, dropped)
    ensures Writing(out, remaining, |s| + |t|, |t|, Merge(c, s[..i], kept), dropped) && out.front == old(out.front)
    ensures j0 <= j && (j == |t| || (i < |s| && !c.Less(t[j], s[i])))
  {
    hide State, StrictlySorted, Merge, eq.Refines;
    j, kept := j0, kept0;
    StateBounds(c, eq, s, t, i, j, kept, dropped);
    while j != |t| && (i == |s| || c.Less(t[j], s[i]))
      invariant State(c, eq, s, t, i, j, kept, dropped) && 0 <= i <= |s| && j0 <= j <= |t|
      invariant |Merge(c, s[..i], kept)| <= i + j
      invariant Writing(out, remaining, |s| + |t|, |t|, Merge(c, s[..i], kept), dropped) && out.front == old(out.front)
    {
      TakeSecond(c, eq, s, t, i, j, kept, dropped);
      out.Put(t[j]);
      kept := kept + [t[j]];
      j := j + 1;
      StateBounds(c, eq, s, t, i, j, kept, dropped);
    }
  }

  /** The loop that skips equal elements of the second range. */
  method SkipEquals<T(!new)>(out: Sink<T>, remaining: Sink?<T>, s: seq<T>, t: seq<T>, c: Order<T>, eq: Equality<T>,
                             i: int, j0: int, ghost kept: seq<T>, ghost dropped0: seq<T>)
    returns (j: int, ghost dropped: seq<T>)
    requires c.StrictWeak() && StrictlySorted(c, s) && StrictlySorted(c, t)
    requires State(c, eq, s, t, i, j0, kept, dropped0)
    requires Writing(out, remaining, |s| + |t|, |t|, Merge(c, s[..i], kept), dropped0)
    requires i < |s| && (j0 == |t| || !c.Less(t[j0], s[i]))
    modifies if remaining == null then {} else {remaining}
    ensures State(c, eq, s, t, i, j, kept, dropped)
    ensures Writing(out, remaining, |s| + |t|, |t|, Merge(c, s[..i], kept), dropped)
    ensures remaining != null ==> remaining.front == old(remaining.front)
    ensures j0 <= j && (j == |t| || Past(c, eq, s[i], t[j]))
  {
    hide State, StrictlySorted, Merge, eq.Refines;
    j, dropped := j0, dropped0;
    StateBounds(c, eq, s, t, i, j, kept, dropped);
    while j != |t| && eq.Same(t[j], s[i])
      invariant State(c, eq, s, t, i, j, kept, dropped) && 0 <= i < |s| && j0 <= j <= |t| && |dropped| <= j
      invariant Writing(out, remaining, |s| + |t|, |t|, Merge(c, s[..i], kept), dropped)
      invariant remaining != null ==> remaining.front == old(remaining.front)
      invariant j == |t| || !c.Less(t[j], s[i])
    {
      SkipEqual(c, eq, s, t, i, j, kept, dropped);
      if remaining != null {
        remaining.Put(t[j]);
      }
      dropped := dropped + [t[j]];
      j := j + 1;
      StateBounds(c, eq, s, t, i, j, kept, dropped);
    }
  }

  /** Writes the next element of the first range. */
  method PutFirst<T(!new)>(out: Sink<T>, remaining: Sink?<T>, s: seq<T>, t: seq<T>, c: Order<T>, i: int, j: int,
                           ghost eq: Equality<T>, ghost kept: seq<T>, ghost dropped: seq<T>)
    requires c.StrictWeak() && StrictlySorted(c, s) && State(c, eq, s, t, i, j, kept, dropped)
    requires Writing(out, remaining, |s| + |t|, |t|, Merge(c, s[..i], kept), dropped)
    requires i < |s| && (j == |t| || Past(c, eq, s[i], t[j]))
    modifies out
    ensures State(c, eq, s, t, i + 1, j, kept, dropped) && out.front == old(out.front)
    ensures Writing(out, remaining, |s| + |t|, |t|, Merge(c, s[..i + 1], kept), dropped)
  {
    hide State, StrictlySorted, Merge, Past;
    StateBounds(c, eq, s, t, i, j, kept, dropped);
    TakeFirst(c, eq, s, t, i, j, kept, dropped);
    out.Put(s[i]);
  }

  /** The last inner loop: elements of the first range that go before the next of the second. */
  method DrainFirst<T(!new)>(out: Sink<T>, remaining: Sink?<T>, s: seq<T>, t: seq<T>, c: Order<T>, i0: int, j: int,
                             ghost eq: Equality<T>, ghost kept: seq<T>, ghost dropped: seq<T>)
    returns (i: int)
    requires c.StrictWeak() && StrictlySorted(c, s) && State(c, eq, s, t, i0, j, kept, dropped)
    requires Writing(out, remaining, |s| + |t|, |t|, Merge(c, s[..i0], kept), dropped)
    modifies out
    ensures State(c, eq, s, t, i, j, kept, dropped)
    ensures Writing(out, remaining, |s| + |t|, |t|, Merge(c, s[..i], kept), dropped) && out.front == old(out.front)
    ensures i0 <= i && (i == |s| || (j < |t| && !c.Less(s[i], t[j])))
  {
    hide State, StrictlySorted, Merge, Past;
    i := i0;
    StateBounds(c, eq, s, t, i, j, kept, dropped);
    while i != |s| && (j == |t| || c.Less(s[i], t[j]))
      invariant State(c, eq, s, t, i, j, kept, dropped) && i0 <= i <= |s| && 0 <= j <= |t|
      invariant Writing(out, remaining, |s| + |t|, |t|, Merge(c, s[..i], kept), dropped) && out.front == old(out.front)
    {
      if j != |t| {
        LessIsPast(c, eq, s[i], t[j]);
      }
      PutFirst(out, remaining, s, t, c, i, j, eq, kept, dropped);
      i := i + 1;
    }
  }

  /** unique_merge_move: writes the elements of the first range and those `kept` of the second, and to
      `remaining` those `dropped`. Each of these is equal to an element of the first range, and if equality never
      holds of elements that the order tells apart, they are all that are. From random access iterators the
      containers are resized, and what they held is overwritten; otherwise the elements go behind it. */
  method UniqueMergeMove<T(!new)>(randomAccess: bool, out: Sink<T>, remaining: Sink?<T>, s: seq<T>, t: seq<T>,
                                  c: Order<T>, eq: Equality<T>, default: T)
    returns (ghost kept: seq<T>, ghost dropped: seq<T>)
    requires c.StrictWeak() && StrictlySorted(c, s) && StrictlySorted(c, t) && remaining != out
    modifies out, remaining
    ensures out.items == (if randomAccess then [] else old(out.items)) + Merge(c, s, kept)
    ensures remaining != null ==>
              remaining.items == (if randomAccess then [] else old(remaining.items)) + dropped
    ensures Split(c, eq, s, t, kept, dropped)
    ensures eq.Refines(c) ==> kept == NewOnes(eq, s, t) && dropped == Repeats(eq, s, t)
  {
    hide State, StrictlySorted, eq.Refines, Past, Merge, Split;
    kept, dropped := [], [];
    out.Open(randomAccess, |s| + |t|, default);
    if remaining != null {
      remaining.Open(randomAccess, |t|, default);
    }
    var i, j := 0, 0;
    Begin(c, eq, s, t);
    while !(i == |s| && j == |t|)
      invariant State(c, eq, s, t, i, j, kept, dropped) && 0 <= i <= |s| && 0 <= j <= |t|
      invariant Writing(out, remaining, |s| + |t|, |t|, Merge(c, s[..i], kept), dropped)
      invariant out.front == if randomAccess then [] else old(out.items)
      invariant remaining != null ==> remaining.front == if randomAccess then [] else old(remaining.items)
      decreases |s| - i + |t| - j
    {
      j, kept := DrainSecond(out, remaining, s, t, c, i, j, eq, kept, dropped);
      StateBounds(c, eq, s, t, i, j, kept, dropped);
      if i != |s| {
        j, dropped := SkipEquals(out, remaining, s, t, c, eq, i, j, kept, dropped);
        PutFirst(out, remaining, s, t, c, i, j, eq, kept, dropped);
        i := i + 1;
      }
      i := DrainFirst(out, remaining, s, t, c, i, j, eq, kept, dropped);
      StateBounds(c, eq, s, t, i, j, kept, dropped);
    }
    Done(c, eq, s, t, kept, dropped);
    if remaining != null {
      remaining.Finish();
    }
    out.Finish();
  }
}
