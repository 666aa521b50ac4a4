/** What a flat tree should do, on plain sorted sequences: look up by equivalence, insert, erase and
    drop repeated keys. */
module SortedSets {
  import opened BinarySearch
  import opened Ordering
  import opened StableSorting
  import opened Wrappers

  /** Keys strictly increasing. */
  ghost predicate StrictlySorted<T(!new)>(c: Order<T>, s: seq<T>) {
    forall i, j :: 0 <= i < j < |s| ==> c.Less(s[i], s[j])
  }

  lemma StrictIsSorted<T(!new)>(c: Order<T>, s: seq<T>)
    requires c.StrictWeak() && StrictlySorted(c, s)
    ensures c.Sorted(s)
  {
  }

  // ----- The abstract map -----

  /** The first element whose key is equivalent to that of `x`. */
  ghost function Lookup<T(!new)>(c: Order<T>, s: seq<T>, x: T): Option<T> {
    var f := Filter(c, x, s);
    if f == [] then None else Some(f[0])
  }

  lemma LookupConcat<T(!new)>(c: Order<T>, a: seq<T>, b: seq<T>, x: T)
    ensures Lookup(c, a + b, x) == if Lookup(c, a, x).Some? then Lookup(c, a, x) else Lookup(c, b, x)
  {
    FilterConcat(c, x, a, b);
  }

  lemma {:induction false} LookupNone<T(!new)>(c: Order<T>, s: seq<T>, x: T)
    ensures Lookup(c, s, x) == None <==> forall i :: 0 <= i < |s| ==> !c.Equivalent(x, s[i])
    ensures Lookup(c, s, x).Some? ==> Lookup(c, s, x).value in s && c.Equivalent(x, Lookup(c, s, x).value)
  {
    if s != [] {
      LookupNone(c, s[1..], x);
      assert s == [s[0]] + s[1..];
      assert Filter(c, x, s) == (if c.Equivalent(x, s[0]) then [s[0]] else []) + Filter(c, x, s[1..]);
      if c.Equivalent(x, s[0]) {
        assert Lookup(c, s, x) == Some(s[0]);
      } else {
        assert Lookup(c, s, x) == Lookup(c, s[1..], x);
        assert (forall i :: 0 <= i < |s| ==> !c.Equivalent(x, s[i]))
               <==> forall i :: 0 <= i < |s[1..]| ==> !c.Equivalent(x, s[1..][i]);
      }
    }
  }

  /** One more key in the map. */
  lemma LookupAfterInsert<T(!new)>(c: Order<T>, a: seq<T>, y: T, b: seq<T>, x: T)
    requires c.StrictWeak() && Lookup(c, a + b, y) == None
    ensures Lookup(c, a + [y] + b, x) == if c.Equivalent(x, y) then Some(y) else Lookup(c, a + b, x)
  {
    LookupConcat(c, a + [y], b, x);
    LookupConcat(c, a, [y], x);
    LookupConcat(c, a, b, x);
    assert Filter(c, x, [y]) == if c.Equivalent(x, y) then [y] else [];
    if c.Equivalent(x, y) {
      LookupNone(c, a + b, y);
      LookupNone(c, a, x);
      hide Lookup, Filter;
      forall i | 0 <= i < |a| ensures !c.Equivalent(x, a[i]) {
        assert a[i] == (a + b)[i];
      }
    }
  }

  /** The elements whose keys are not equivalent to that of `x`. */
  ghost function Without<T(!new)>(c: Order<T>, s: seq<T>, x: T): seq<T> {
    if s == [] then []
    else Kept(c, s[0], x) + Without(c, s[1..], x)
  }

  ghost function Kept<T(!new)>(c: Order<T>, y: T, x: T): seq<T> {
    if c.Equivalent(x, y) then [] else [y]
  }

  lemma WithoutStep<T(!new)>(c: Order<T>, y: T, s: seq<T>, x: T)
    ensures Without(c, [y] + s, x) == Kept(c, y, x) + Without(c, s, x)
  {
    assert ([y] + s)[1..] == s;
  }

  lemma WithoutNone<T(!new)>(c: Order<T>, x: T)
    ensures Without(c, [], x) == []
  {
  }

  /** One key less in the map. */
  lemma {:induction false} LookupAfterErase<T(!new)>(c: Order<T>, s: seq<T>, y: T, x: T)
    requires c.StrictWeak()
    ensures Lookup(c, Without(c, s, y), x) == if c.Equivalent(x, y) then None else Lookup(c, s, x)
  {
    if s != [] {
      var head, rest := [s[0]], s[1..];
      LookupAfterErase(c, rest, y, x);
      assert s == head + rest;
      LookupConcat(c, head, rest, x);
      LookupConcat(c, head, Without(c, rest, y), x);
      LookupConcat(c, [], Without(c, rest, y), x);
      assert Filter(c, x, head) == if c.Equivalent(x, s[0]) then head else [];
    }
  }

  lemma {:induction false} WithoutConcat<T(!new)>(c: Order<T>, a: seq<T>, b: seq<T>, x: T)
    ensures Without(c, a + b, x) == Without(c, a, x) + Without(c, b, x)
  {
    hide Without, Kept;
    if a == [] {
      WithoutNone(c, x);
      assert a + b == b;
    } else {
      var y, rest := a[0], a[1..];
      assert a == [y] + rest && a + b == [y] + (rest + b);
      WithoutConcat(c, rest, b, x);
      WithoutStep(c, y, rest, x);
      WithoutStep(c, y, rest + b, x);
    }
  }

  lemma {:induction false} WithoutAllOrNone<T(!new)>(c: Order<T>, s: seq<T>, x: T)
    ensures (forall i :: 0 <= i < |s| ==> !c.Equivalent(x, s[i])) ==> Without(c, s, x) == s
    ensures (forall i :: 0 <= i < |s| ==> c.Equivalent(x, s[i])) ==> Without(c, s, x) == []
  {
    if s != [] {
      WithoutAllOrNone(c, s[1..], x);
      assert s == [s[0]] + s[1..];
      assert forall i :: 0 <= i < |s[1..]| ==> s[1..][i] == s[i + 1];
    }
  }

  /** The elements equivalent to `x` in the middle are taken out. */
  /** The elements with the key of `x` are those from `i` up to `j`. */
  ghost predicate ClassAt<T(!new)>(c: Order<T>, s: seq<T>, x: T, i: int, j: int) {
    forall k :: 0 <= k < |s| ==> (c.Equivalent(x, s[k]) <==> i <= k < j)
  }

  lemma WithoutMiddle<T(!new)>(c: Order<T>, s: seq<T>, x: T, i: int, j: int)
    requires 0 <= i <= j <= |s| && ClassAt(c, s, x, i, j)
    ensures Without(c, s, x) == s[..i] + s[j..]
  {
    assert s == s[..i] + s[i..j] + s[j..];
    WithoutPart(c, s[..i], s[i..j], s[j..], x);
  }

  lemma WithoutPart<T(!new)>(c: Order<T>, a: seq<T>, m: seq<T>, b: seq<T>, x: T)
    requires forall k :: 0 <= k < |a| ==> !c.Equivalent(x, a[k])
    requires forall k :: 0 <= k < |m| ==> c.Equivalent(x, m[k])
    requires forall k :: 0 <= k < |b| ==> !c.Equivalent(x, b[k])
    ensures Without(c, a + m + b, x) == a + b
  {
    WithoutAllOrNone(c, a, x);
    WithoutAllOrNone(c, m, x);
    WithoutAllOrNone(c, b, x);
    hide Without, c.Equivalent;
    WithoutConcat(c, a + m, b, x);
    WithoutConcat(c, a, m, x);
    assert a + [] == a;
  }

  // ----- Repeated keys -----

  /** std::unique on a sorted sequence: the first element of each class of equivalent ones. */
  ghost function UniqueOf<T(!new)>(c: Order<T>, s: seq<T>): (r: seq<T>)
    ensures s != [] ==> r != []
  {
    if s == [] then []
    else
      var u, last := UniqueOf(c, s[..|s| - 1]), s[|s| - 1];
      if u != [] && !c.Less(u[|u| - 1], last) then u else u + [last]
  }

  /** What is left is strictly sorted, and its last key is the last key of all. */
  lemma {:induction false} UniqueStrict<T(!new)>(c: Order<T>, s: seq<T>)
    requires c.StrictWeak() && c.Sorted(s)
    ensures StrictlySorted(c, UniqueOf(c, s))
    ensures s != [] ==> var u := UniqueOf(c, s); c.Equivalent(u[|u| - 1], s[|s| - 1])
  {
    if s != [] {
      var front, last := s[..|s| - 1], s[|s| - 1];
      UniqueStrict(c, front);
      var u := UniqueOf(c, front);
      if front != [] {
        assert !c.Less(last, s[|s| - 2]);
        c.LeqTransitive(last, front[|front| - 1], u[|u| - 1]);
        AppendStrict(c, u, last);
      }
    }
  }

  lemma AppendStrict<T(!new)>(c: Order<T>, u: seq<T>, x: T)
    requires c.StrictWeak() && StrictlySorted(c, u) && u != []
    ensures c.Less(u[|u| - 1], x) ==> StrictlySorted(c, u + [x])
  {
    if c.Less(u[|u| - 1], x) {
      forall i | 0 <= i < |u| ensures c.Less(u[i], x) {
        if i < |u| - 1 {
          c.LessLeq(u[i], u[|u| - 1], x);
        }
      }
    }
  }

  /** The same keys remain, each with its first element. */
  lemma {:induction false} UniqueLookup<T(!new)>(c: Order<T>, s: seq<T>, x: T)
    requires c.StrictWeak() && c.Sorted(s)
    ensures Lookup(c, UniqueOf(c, s), x) == Lookup(c, s, x)
  {
    if s != [] {
      var front, last := s[..|s| - 1], s[|s| - 1];
      var u := UniqueOf(c, front);
      UniqueLookup(c, front, x);
      UniqueStrict(c, front);
      assert s == front + [last];
      LookupConcat(c, front, [last], x);
      LookupConcat(c, u, [last], x);
      assert Filter(c, x, [last]) == if c.Equivalent(x, last) then [last] else [];
      if front != [] && !c.Less(u[|u| - 1], last) {
        assert !c.Less(last, s[|s| - 2]);
        assert c.Equivalent(u[|u| - 1], last);
        if c.Equivalent(x, last) {
          LookupNone(c, u, x);
          assert c.Equivalent(x, u[|u| - 1]);
        }
      }
    }
  }

  lemma LookupInMerge<T(!new)>(c: Order<T>, a: seq<T>, b: seq<T>, x: T)
    requires c.StrictWeak() && c.Sorted(a)
    ensures Lookup(c, Merge(c, a, b), x) == if Lookup(c, a, x).Some? then Lookup(c, a, x) else Lookup(c, b, x)
  {
    FilterMerge(c, x, a, b);
  }

  // ----- Bounds -----

  function LowerProbe<T(!new)>(c: Order<T>, x: T): Probe<T> {
    Probe(y => if c.less(y, x) then -1 else if c.less(x, y) then 1 else 0)
  }

  /** The negated comparator of an upper bound. */
  function UpperProbe<T(!new)>(c: Order<T>, x: T): Probe<T> {
    Probe(y => if !c.less(x, y) then -1 else 1)
  }

  lemma LowerProbeIs<T(!new)>(c: Order<T>, x: T, y: T)
    ensures LowerProbe(c, x).Below(y) == c.Less(y, x)
    ensures c.StrictWeak() ==> LowerProbe(c, x).Matches(y) == c.Equivalent(y, x)
    ensures c.StrictWeak() ==> (LowerProbe(c, x).compare(y) > 0) == c.Less(x, y)
  {
  }

  lemma UpperProbeIs<T(!new)>(c: Order<T>, x: T, y: T)
    ensures UpperProbe(c, x).Below(y) == !c.Less(x, y)
    ensures (UpperProbe(c, x).compare(y) > 0) == c.Less(x, y)
  {
  }

  lemma ProbesOrdered<T(!new)>(c: Order<T>, s: seq<T>, x: T)
    requires c.StrictWeak() && c.Sorted(s)
    ensures LowerProbe(c, x).Ordered(s) && UpperProbe(c, x).Ordered(s)
    ensures StrictlySorted(c, s) ==> LowerProbe(c, x).AtMostOne(s)
  {
    var p, q := LowerProbe(c, x), UpperProbe(c, x);
    hide LowerProbe, UpperProbe;
    forall i, j | 0 <= i < j < |s|
      ensures (p.Below(s[j]) ==> p.Below(s[i])) && (p.compare(s[i]) > 0 ==> p.compare(s[j]) > 0)
      ensures (q.Below(s[j]) ==> q.Below(s[i])) && (q.compare(s[i]) > 0 ==> q.compare(s[j]) > 0)
      ensures StrictlySorted(c, s) ==> !(p.Matches(s[i]) && p.Matches(s[j])) {
      assert !c.Less(s[j], s[i]);
      ProbesAgree(c, x, s[i], s[j]);
    }
  }

  /** The probes are monotone. */
  lemma ProbesAgree<T(!new)>(c: Order<T>, x: T, y: T, z: T)
    requires c.StrictWeak() && !c.Less(z, y)
    ensures var p := LowerProbe(c, x);
            && (p.Below(z) ==> p.Below(y)) && (p.compare(y) > 0 ==> p.compare(z) > 0)
            && (c.Less(y, z) ==> !(p.Matches(y) && p.Matches(z)))
    ensures var q := UpperProbe(c, x);
            (q.Below(z) ==> q.Below(y)) && (q.compare(y) > 0 ==> q.compare(z) > 0)
  {
    LowerProbeIs(c, x, y);
    LowerProbeIs(c, x, z);
    UpperProbeIs(c, x, y);
    UpperProbeIs(c, x, z);
  }

  /** At its lower bound, a new key can be inserted. */
  lemma InsertAtLowerBound<T(!new)>(c: Order<T>, s: seq<T>, x: T, r: int)
    requires c.StrictWeak() && StrictlySorted(c, s) && 0 <= r <= |s|
    requires forall i :: 0 <= i < r ==> c.Less(s[i], x)
    requires forall i :: r <= i < |s| ==> c.Less(x, s[i])
    ensures StrictlySorted(c, s[..r] + [x] + s[r..])
  {
    var t := s[..r] + [x] + s[r..];
    forall i, j | 0 <= i < j < |t| ensures c.Less(t[i], t[j]) {
      if i < r && j > r {
        assert c.Less(s[i], s[j - 1]);
      }
    }
  }

  /** Anywhere among its equivalents, a key can be inserted if keys may repeat. */
  lemma InsertAmongEquals<T(!new)>(c: Order<T>, s: seq<T>, x: T, r: int)
    requires c.StrictWeak() && c.Sorted(s) && 0 <= r <= |s|
    requires forall i :: 0 <= i < r ==> !c.Less(x, s[i])
    requires forall i :: r <= i < |s| ==> !c.Less(s[i], x)
    ensures c.Sorted(s[..r] + [x] + s[r..])
  {
    var t := s[..r] + [x] + s[r..];
    forall i, j | 0 <= i < j < |t| ensures !c.Less(t[j], t[i]) {
      if i < r && j > r {
        assert !c.Less(s[j - 1], s[i]);
      }
    }
  }
}
