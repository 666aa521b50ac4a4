/** Runs of operations on a flat tree: over all of them, the tree is a map (or a multimap) of its keys. */
module FlatTreeRuns {
  import opened FlatTrees
  import opened NetSort
  import opened Ordering
  import opened SortedSets
  import opened StableSorting
  import opened UniqueMerge
  import opened Wrappers

  /** emplace (with or without a hint), insert of a range and erase of a key. */
  datatype Op<T> = Emplace(x: T) | Insert(items: seq<T>) | Erase(x: T)

  /** What the methods of the tree promise of one operation. */
  ghost predicate Step<T(!new)>(c: Order<T>, unique: bool, op: Op<T>, s: seq<T>, r: seq<T>) {
    match op
    case Emplace(x) => exists pos, inserted :: Emplaced(c, unique, s, r, x, pos, inserted)
    case Insert(items) => r == Merged(c, unique, s, NetSorted(true, c, items))
    case Erase(x) => r == Without(c, s, x)
  }

  /** Keys not decreasing, or strictly increasing. */
  ghost predicate InOrder<T(!new)>(c: Order<T>, unique: bool, s: seq<T>) {
    c.Sorted(s) && (unique ==> StrictlySorted(c, s))
  }

  /** The elements with the key of `x` after an operation, from those before. */
  ghost function ClassAfter<T(!new)>(c: Order<T>, unique: bool, op: Op<T>, x: T, was: seq<T>): seq<T> {
    match op
    case Emplace(y) => if !c.Equivalent(x, y) || (unique && was != []) then was else was + [y]
    case Insert(items) =>
      var added := Filter(c, x, NetSorted(true, c, items));
      if !unique then was + added else if was != [] || added == [] then was else [added[0]]
    case Erase(y) => if c.Equivalent(x, y) then [] else was
  }

  /** The elements with the key of `x` after operations on an empty tree. */
  ghost function ClassAfterAll<T(!new)>(c: Order<T>, unique: bool, ops: seq<Op<T>>, x: T): seq<T> {
    if ops == [] then []
    else ClassAfter(c, unique, ops[|ops| - 1], x, ClassAfterAll(c, unique, ops[..|ops| - 1], x))
  }

  /** The contents of a tree while operations are performed on it. */
  ghost predicate IsRun<T(!new)>(c: Order<T>, unique: bool, ops: seq<Op<T>>, states: seq<seq<T>>) {
    && |states| == |ops| + 1 && states[0] == []
    && forall i :: 0 <= i < |ops| ==> Step(c, unique, ops[i], states[i], states[i + 1])
  }

  /** After every run, the keys are in order, and every key has exactly the elements that the
      operations on it, by themselves, have left. */
  lemma {:induction false} RunsKeepMap<T(!new)>(c: Order<T>, unique: bool, ops: seq<Op<T>>, states: seq<seq<T>>, x: T)
    requires c.StrictWeak() && IsRun(c, unique, ops, states)
    ensures InOrder(c, unique, states[|ops|])
    ensures Filter(c, x, states[|ops|]) == ClassAfterAll(c, unique, ops, x)
    decreases |ops|
  {
    if ops != [] {
      hide Filter, Step, InOrder, c.StrictWeak, ClassAfter;
      var n := |ops| - 1;
      RunsKeepMap(c, unique, ops[..n], states[..n + 1], x);
      assert Step(c, unique, ops[n], states[n], states[n + 1]);
      StepMeans(c, unique, ops[n], states[n], states[n + 1], x);
    }
  }

  lemma StepMeans<T(!new)>(c: Order<T>, unique: bool, op: Op<T>, s: seq<T>, r: seq<T>, x: T)
    requires c.StrictWeak() && InOrder(c, unique, s) && Step(c, unique, op, s, r)
    ensures InOrder(c, unique, r)
    ensures Filter(c, x, r) == ClassAfter(c, unique, op, x, Filter(c, x, s))
  {
    match op
    case Emplace(y) =>
      var pos, inserted :| Emplaced(c, unique, s, r, y, pos, inserted);
      EmplaceStep(c, unique, s, r, y, pos, inserted, x);
    case Insert(items) =>
      InsertStep(c, unique, s, items, x);
    case Erase(y) =>
      WithoutInOrder(c, unique, s, y);
      WithoutClass(c, s, y, x);
  }

  lemma EmplaceStep<T(!new)>(c: Order<T>, unique: bool, s: seq<T>, r: seq<T>, y: T, pos: int, inserted: bool, x: T)
    requires c.StrictWeak() && InOrder(c, unique, s) && Emplaced(c, unique, s, r, y, pos, inserted)
    ensures InOrder(c, unique, r)
    ensures Filter(c, x, r) == ClassAfter(c, unique, Emplace(y), x, Filter(c, x, s))
  {
    SameKey(c, s, x, y);
    if inserted {
      EmplacedInOrder(c, unique, s, r, y, pos);
      hide Filter, InOrder;
      NoneBehind(c, s[pos..], y, x);
      assert s == s[..pos] + s[pos..];
      ClassWithOneMore(c, s[..pos], y, s[pos..], x);
    }
  }

  /** The elements behind the place of a key are greater, so none has that key. */
  lemma NoneBehind<T(!new)>(c: Order<T>, back: seq<T>, y: T, x: T)
    requires c.StrictWeak() && forall i :: 0 <= i < |back| ==> c.Less(y, back[i])
    ensures c.Equivalent(x, y) ==> Filter(c, x, back) == []
  {
    if c.Equivalent(x, y) {
      FilterNone(c, x, back);
    }
  }

  lemma ClassWithOneMore<T(!new)>(c: Order<T>, front: seq<T>, y: T, back: seq<T>, x: T)
    requires c.Equivalent(x, y) ==> Filter(c, x, back) == []
    ensures Filter(c, x, front + [y] + back) == Filter(c, x, front + back) + if c.Equivalent(x, y) then [y] else []
  {
    FilterOne(c, x, y);
    hide Filter;
    FilterConcat(c, x, front, back);
    FilterConcat(c, x, front + [y], back);
    FilterConcat(c, x, front, [y]);
  }

  lemma FilterOne<T(!new)>(c: Order<T>, x: T, y: T)
    ensures Filter(c, x, [y]) == if c.Equivalent(x, y) then [y] else []
  {
  }

  /** Whether a key is there does not depend on the element it is looked up with. */
  lemma SameKey<T(!new)>(c: Order<T>, s: seq<T>, x: T, y: T)
    requires c.StrictWeak()
    ensures c.Equivalent(x, y) ==> (Lookup(c, s, y) == None <==> Filter(c, x, s) == [])
  {
    if c.Equivalent(x, y) {
      SameLookup(c, s, x, y);
    }
  }

  lemma EmplacedInOrder<T(!new)>(c: Order<T>, unique: bool, s: seq<T>, r: seq<T>, y: T, pos: int)
    requires c.StrictWeak() && InOrder(c, unique, s) && Emplaced(c, unique, s, r, y, pos, true)
    ensures InOrder(c, unique, r)
  {
    InsertAmongEquals(c, s, y, pos);
    if unique {
      LookupNone(c, s, y);
      InsertAtLowerBound(c, s, y, pos);
    }
  }

  lemma InsertStep<T(!new)>(c: Order<T>, unique: bool, s: seq<T>, items: seq<T>, x: T)
    requires c.StrictWeak() && InOrder(c, unique, s)
    ensures var r := Merged(c, unique, s, NetSorted(true, c, items));
            InOrder(c, unique, r) && Filter(c, x, r) == ClassAfter(c, unique, Insert(items), x, Filter(c, x, s))
  {
    hide NetSorted, c.StrictWeak, c.Sorted, StrictlySorted, Merge;
    var tail := NetSorted(true, c, items);
    NetSorts(true, c, items);
    MergedInOrder(c, unique, s, tail);
    MergedMeans(c, s, tail, x);
    if unique {
      ClassOfKey(c, s, x);
      ClassOfKey(c, Merged(c, true, s, tail), x);
    }
  }

  /** Where keys do not repeat, a class is what the key is mapped to. */
  lemma ClassOfKey<T(!new)>(c: Order<T>, s: seq<T>, x: T)
    requires c.StrictWeak() && StrictlySorted(c, s)
    ensures Filter(c, x, s) == if Lookup(c, s, x) == None then [] else [Lookup(c, s, x).value]
  {
    OneOfEachClass(c, s, x);
  }

  lemma {:induction false} WithoutInOrder<T(!new)>(c: Order<T>, unique: bool, s: seq<T>, y: T)
    requires InOrder(c, unique, s)
    ensures InOrder(c, unique, Without(c, s, y))
    ensures forall z :: z in Without(c, s, y) ==> z in s
  {
    if s != [] {
      var rest := Without(c, s[1..], y);
      WithoutInOrder(c, unique, s[1..], y);
      forall z | z in rest ensures !c.Less(z, s[0]) && (unique ==> c.Less(s[0], z)) {
        var i :| 0 <= i < |s[1..]| && s[1..][i] == z;
        assert s[i + 1] == z;
      }
      InOrderInFront(c, unique, s[0], rest);
    }
  }

  lemma InOrderInFront<T(!new)>(c: Order<T>, unique: bool, y: T, s: seq<T>)
    requires InOrder(c, unique, s) && forall z :: z in s ==> !c.Less(z, y) && (unique ==> c.Less(y, z))
    ensures InOrder(c, unique, [y] + s)
  {
  }

  lemma {:induction false} WithoutClass<T(!new)>(c: Order<T>, s: seq<T>, y: T, x: T)
    requires c.StrictWeak()
    ensures Filter(c, x, Without(c, s, y)) == if c.Equivalent(x, y) then [] else Filter(c, x, s)
  {
    if s != [] {
      WithoutClass(c, s[1..], y, x);
      FilterConcat(c, x, Kept(c, s[0], y), Without(c, s[1..], y));
    }
  }
}
