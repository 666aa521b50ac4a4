/** The mathematics every merging routine is measured against: the stable merge
    of two sequences, the stable sort of one, and the laws that connect them. */
module StableSorting {
  import opened Ordering

  /** The stable merge: an element of `b` goes first only when it is strictly less. */
  function Merge<T(!new)>(c: Order<T>, a: seq<T>, b: seq<T>): (r: seq<T>)
    ensures |r| == |a| + |b|
    decreases |a| + |b|
  {
    if a == [] then b
    else if b == [] then a
    else if c.Less(b[0], a[0]) then [b[0]] + Merge(c, a, b[1..])
    else [a[0]] + Merge(c, a[1..], b)
  }

  /** Sorting by inserting one element after another behind its equivalents. */
  function StableSort<T(!new)>(c: Order<T>, s: seq<T>): (r: seq<T>)
    ensures |r| == |s|
  {
    if s == [] then []
    else Merge(c, StableSort(c, s[..|s| - 1]), [s[|s| - 1]])
  }

  /** The elements of `s` that `x` cannot be told apart from, in order. */
  function Filter<T(!new)>(c: Order<T>, x: T, s: seq<T>): (r: seq<T>)
    ensures forall i :: 0 <= i < |r| ==> c.Equivalent(x, r[i])
  {
    if s == [] then []
    else (if c.Equivalent(x, s[0]) then [s[0]] else []) + Filter(c, x, s[1..])
  }

  /** Equivalent elements stand in the same order in `r` as in `s`. */
  ghost predicate KeepsClasses<T(!new)>(c: Order<T>, s: seq<T>, r: seq<T>) {
    forall x :: Filter(c, x, r) == Filter(c, x, s)
  }

  /** `r` has the elements of `s` in another order, but equivalent ones in the same. */
  ghost predicate Rearranges<T(!new)>(c: Order<T>, s: seq<T>, r: seq<T>) {
    |s| == |r| && multiset(s) == multiset(r) && StableSort(c, s) == StableSort(c, r)
  }

  // ----- Merge -----

  lemma MergeNone<T(!new)>(c: Order<T>, a: seq<T>, b: seq<T>)
    ensures a == [] ==> Merge(c, a, b) == b
    ensures b == [] ==> Merge(c, a, b) == a
  {
  }

  lemma MergeTakesLeft<T(!new)>(c: Order<T>, a: seq<T>, b: seq<T>)
    requires a != [] && (b == [] || !c.Less(b[0], a[0]))
    ensures Merge(c, a, b) == [a[0]] + Merge(c, a[1..], b)
  {
    assert a == [a[0]] + a[1..];
  }

  lemma MergeTakesRight<T(!new)>(c: Order<T>, a: seq<T>, b: seq<T>)
    requires b != [] && (a == [] || c.Less(b[0], a[0]))
    ensures Merge(c, a, b) == [b[0]] + Merge(c, a, b[1..])
  {
    assert b == [b[0]] + b[1..];
  }

  /** A merge falls apart at any point that separates both inputs. */
  lemma {:induction false} MergeSplit<T(!new)>(c: Order<T>, a1: seq<T>, a2: seq<T>, b1: seq<T>, b2: seq<T>)
    requires c.AllLeq(a1, b2)
    requires c.AllLess(b1, a2)
    ensures Merge(c, a1 + a2, b1 + b2) == Merge(c, a1, b1) + Merge(c, a2, b2)
    decreases |a1| + |b1|
  {
    hide Merge, c.AllLeq, c.AllLess;
    if a1 == [] && b1 == [] {
      MergeNone(c, a1, b1);
      assert a1 + a2 == a2 && b1 + b2 == b2;
    } else if b1 != [] && (a1 == [] || c.Less(b1[0], a1[0])) {
      MergeSplitHead(c, a1, a2, b1, b2, true);
      MergeSplit(c, a1, a2, b1[1..], b2);
    } else {
      MergeSplitHead(c, a1, a2, b1, b2, false);
      MergeSplit(c, a1[1..], a2, b1, b2);
    }
  }

  /** The step of `MergeSplit`: the merge of the whole and that of the first parts begin
      with the same element, taken from the same side. */
  lemma MergeSplitHead<T(!new)>(c: Order<T>, a1: seq<T>, a2: seq<T>, b1: seq<T>, b2: seq<T>, right: bool)
    requires c.AllLeq(a1, b2) && c.AllLess(b1, a2)
    requires a1 != [] || b1 != []
    requires right == (b1 != [] && (a1 == [] || c.Less(b1[0], a1[0])))
    ensures right ==> c.AllLess(b1[1..], a2)
    ensures !right ==> c.AllLeq(a1[1..], b2)
    ensures right ==> Merge(c, a1, b1) == [b1[0]] + Merge(c, a1, b1[1..])
    ensures right ==> Merge(c, a1 + a2, b1 + b2) == [b1[0]] + Merge(c, a1 + a2, b1[1..] + b2)
    ensures !right ==> Merge(c, a1, b1) == [a1[0]] + Merge(c, a1[1..], b1)
    ensures !right ==> Merge(c, a1 + a2, b1 + b2) == [a1[0]] + Merge(c, a1[1..] + a2, b1 + b2)
  {
    var a, b := a1 + a2, b1 + b2;
    hide Merge;
    if right {
      assert a == [] || c.Less(b[0], a[0]);
      MergeTakesRight(c, a, b);
      MergeTakesRight(c, a1, b1);
      assert b[1..] == b1[1..] + b2;
    } else {
      assert b == [] || !c.Less(b[0], a[0]);
      MergeTakesLeft(c, a, b);
      MergeTakesLeft(c, a1, b1);
      assert a[1..] == a1[1..] + a2;
    }
  }

  /** Ranges already in order are merged by leaving them where they are. */
  lemma MergeInOrder<T(!new)>(c: Order<T>, a: seq<T>, b: seq<T>)
    requires c.AllLeq(a, b)
    ensures Merge(c, a, b) == a + b
  {
    MergeSplit(c, a, [], [], b);
    assert a + [] == a && [] + b == b;
  }

  /** Ranges entirely in the wrong order are merged by exchanging them. */
  lemma MergeExchange<T(!new)>(c: Order<T>, a: seq<T>, b: seq<T>)
    requires c.AllLess(b, a)
    ensures Merge(c, a, b) == b + a
  {
    MergeSplit(c, [], a, b, []);
    assert [] + a == a && b + [] == b;
  }

  lemma {:induction false} MergePermutes<T(!new)>(c: Order<T>, a: seq<T>, b: seq<T>)
    ensures multiset(Merge(c, a, b)) == multiset(a) + multiset(b)
    decreases |a| + |b|
  {
    if a != [] && b != [] {
      if c.Less(b[0], a[0]) {
        MergePermutes(c, a, b[1..]);
        assert b == [b[0]] + b[1..];
      } else {
        MergePermutes(c, a[1..], b);
        assert a == [a[0]] + a[1..];
      }
    }
  }

  /** Every element of a merge comes from one of its inputs. */
  lemma MergeElements<T(!new)>(c: Order<T>, a: seq<T>, b: seq<T>)
    ensures forall x :: x in Merge(c, a, b) <==> x in a || x in b
  {
    MergePermutes(c, a, b);
    forall x ensures x in Merge(c, a, b) <==> x in a || x in b {
      assert x in multiset(Merge(c, a, b)) <==> x in multiset(a) + multiset(b);
    }
  }

  lemma {:induction false} MergeSorted<T(!new)>(c: Order<T>, a: seq<T>, b: seq<T>)
    requires c.StrictWeak() && c.Sorted(a) && c.Sorted(b)
    ensures c.Sorted(Merge(c, a, b))
    decreases |a| + |b|
  {
    if a != [] && b != [] {
      var takeB := c.Less(b[0], a[0]);
      var x := if takeB then b[0] else a[0];
      var a', b' := if takeB then a else a[1..], if takeB then b[1..] else b;
      MergeSorted(c, a', b');
      MergeElements(c, a', b');
      var rest := Merge(c, a', b');
      forall i | 0 <= i < |rest| ensures !c.Less(rest[i], x) {
        assert rest[i] in rest;
        if rest[i] in a' {
          var k :| 0 <= k < |a'| && a'[k] == rest[i];
        } else {
          var k :| 0 <= k < |b'| && b'[k] == rest[i];
        }
      }
    }
  }

  // ----- Filter -----

  lemma {:induction false} FilterConcat<T(!new)>(c: Order<T>, x: T, a: seq<T>, b: seq<T>)
    ensures Filter(c, x, a + b) == Filter(c, x, a) + Filter(c, x, b)
  {
    if a == [] {
      assert a + b == b;
    } else {
      var head := if c.Equivalent(x, a[0]) then [a[0]] else [];
      FilterConcat(c, x, a[1..], b);
      assert (a + b)[0] == a[0] && (a + b)[1..] == a[1..] + b;
      assert Filter(c, x, a) == head + Filter(c, x, a[1..]);
      assert Filter(c, x, a + b) == head + Filter(c, x, a[1..] + b);
    }
  }

  lemma {:induction false} FilterNone<T(!new)>(c: Order<T>, x: T, s: seq<T>)
    requires forall i :: 0 <= i < |s| ==> !c.Equivalent(x, s[i])
    ensures Filter(c, x, s) == []
  {
    if s != [] {
      FilterNone(c, x, s[1..]);
    }
  }

  /** A stable merge keeps, for every class of equivalent elements, those of `a`
      before those of `b` and both in their order. */
  lemma {:induction false} FilterMerge<T(!new)>(c: Order<T>, x: T, a: seq<T>, b: seq<T>)
    requires c.StrictWeak() && c.Sorted(a)
    ensures Filter(c, x, Merge(c, a, b)) == Filter(c, x, a) + Filter(c, x, b)
    decreases |a| + |b|
  {
    if a != [] && b != [] {
      if c.Less(b[0], a[0]) {
        FilterMerge(c, x, a, b[1..]);
        if c.Equivalent(x, b[0]) {
          forall i | 0 <= i < |a| ensures !c.Equivalent(x, a[i]) {
            assert i == 0 || !c.Less(a[i], a[0]);
            assert c.Less(b[0], a[i]);
          }
          FilterNone(c, x, a);
        }
      } else {
        FilterMerge(c, x, a[1..], b);
      }
    }
  }

  // ----- StableSort -----

  lemma {:induction false} SortSorted<T(!new)>(c: Order<T>, s: seq<T>)
    requires c.StrictWeak()
    ensures c.Sorted(StableSort(c, s))
  {
    if s != [] {
      SortSorted(c, s[..|s| - 1]);
      MergeSorted(c, StableSort(c, s[..|s| - 1]), [s[|s| - 1]]);
    }
  }

  lemma {:induction false} SortPermutes<T(!new)>(c: Order<T>, s: seq<T>)
    ensures multiset(StableSort(c, s)) == multiset(s)
  {
    if s != [] {
      SortPermutes(c, s[..|s| - 1]);
      MergePermutes(c, StableSort(c, s[..|s| - 1]), [s[|s| - 1]]);
      assert s == s[..|s| - 1] + [s[|s| - 1]];
    }
  }

  /** A stable sort keeps equivalent elements in the order they had. */
  lemma {:induction false} FilterSort<T(!new)>(c: Order<T>, x: T, s: seq<T>)
    requires c.StrictWeak()
    ensures Filter(c, x, StableSort(c, s)) == Filter(c, x, s)
  {
    if s != [] {
      var front, last := s[..|s| - 1], [s[|s| - 1]];
      FilterSort(c, x, front);
      SortSorted(c, front);
      FilterMerge(c, x, StableSort(c, front), last);
      FilterConcat(c, x, front, last);
      assert s == front + last;
    }
  }

  lemma FilterFirst<T(!new)>(c: Order<T>, s: seq<T>)
    requires c.StrictWeak() && s != []
    ensures Filter(c, s[0], s) != [] && Filter(c, s[0], s)[0] == s[0]
  {
    assert c.Equivalent(s[0], s[0]);
  }

  /** The first element of a sorted sequence has no smaller one anywhere in it, so the
      first of its class is the first of all. */
  lemma FilterHead<T(!new)>(c: Order<T>, r: seq<T>, s: seq<T>)
    requires c.StrictWeak() && r != []
    requires Filter(c, r[0], r) == Filter(c, r[0], s)
    ensures exists k :: 0 <= k < |s| && c.Equivalent(r[0], s[k])
  {
    assert Filter(c, r[0], r)[0] == r[0];
    if forall k :: 0 <= k < |s| ==> !c.Equivalent(r[0], s[k]) {
      FilterNone(c, r[0], s);
      assert false;
    }
  }

  /** Two sorted sequences that agree on every class of equivalent elements are equal:
      there is only one stable sort. */
  lemma {:induction false} SortedUnique<T(!new)>(c: Order<T>, r: seq<T>, s: seq<T>)
    requires c.StrictWeak() && c.Sorted(r) && c.Sorted(s)
    requires forall x :: Filter(c, x, r) == Filter(c, x, s)
    ensures r == s
  {
    if r == [] {
      if s != [] {
        FilterFirst(c, s);
        assert false;
      }
    } else {
      FilterHead(c, r, s);
      var k :| 0 <= k < |s| && c.Equivalent(r[0], s[k]);
      FilterHead(c, s, r);
      var m :| 0 <= m < |r| && c.Equivalent(s[0], r[m]);
      assert !c.Less(s[k], s[0]) && !c.Less(r[m], r[0]);
      assert c.Equivalent(r[0], s[0]);
      assert Filter(c, r[0], r)[0] == r[0] && Filter(c, r[0], s)[0] == s[0];
      forall x ensures Filter(c, x, r[1..]) == Filter(c, x, s[1..]) {
        var head := if c.Equivalent(x, r[0]) then [r[0]] else [];
        assert Filter(c, x, r) == head + Filter(c, x, r[1..]);
        assert Filter(c, x, s) == head + Filter(c, x, s[1..]);
        assert Filter(c, x, r[1..]) == Filter(c, x, r)[|head|..];
        assert Filter(c, x, s[1..]) == Filter(c, x, s)[|head|..];
      }
      SortedUnique(c, r[1..], s[1..]);
    }
  }

  /** Sorting two parts and merging them sorts the whole. */
  lemma SortConcat<T(!new)>(c: Order<T>, a: seq<T>, b: seq<T>)
    requires c.StrictWeak()
    ensures StableSort(c, a + b) == Merge(c, StableSort(c, a), StableSort(c, b))
  {
    var sa, sb := StableSort(c, a), StableSort(c, b);
    SortSorted(c, a);
    SortSorted(c, b);
    SortSorted(c, a + b);
    MergeSorted(c, sa, sb);
    forall x ensures Filter(c, x, StableSort(c, a + b)) == Filter(c, x, Merge(c, sa, sb)) {
      FilterSort(c, x, a + b);
      FilterConcat(c, x, a, b);
      FilterMerge(c, x, sa, sb);
      FilterSort(c, x, a);
      FilterSort(c, x, b);
    }
    SortedUnique(c, StableSort(c, a + b), Merge(c, sa, sb));
  }

  /** A sorted sequence is its own stable sort. */
  lemma SortOfSorted<T(!new)>(c: Order<T>, s: seq<T>)
    requires c.StrictWeak() && c.Sorted(s)
    ensures StableSort(c, s) == s
  {
    SortSorted(c, s);
    forall x ensures Filter(c, x, StableSort(c, s)) == Filter(c, x, s) {
      FilterSort(c, x, s);
    }
    SortedUnique(c, StableSort(c, s), s);
  }

  /** The meaning of `StableSort`: the one sorted sequence that keeps every class of
      equivalent elements as it was; and that sequence is a permutation. */
  lemma StableSortIsTheStableSort<T(!new)>(c: Order<T>, s: seq<T>, r: seq<T>)
    requires c.StrictWeak()
    ensures r == StableSort(c, s) <==> c.Sorted(r) && KeepsClasses(c, s, r)
    ensures r == StableSort(c, s) ==> multiset(r) == multiset(s)
  {
    var t := StableSort(c, s);
    SortSorted(c, s);
    SortPermutes(c, s);
    forall x ensures Filter(c, x, t) == Filter(c, x, s) {
      FilterSort(c, x, s);
    }
    if c.Sorted(r) && KeepsClasses(c, s, r) {
      forall x ensures Filter(c, x, r) == Filter(c, x, t) {
        assert Filter(c, x, r) == Filter(c, x, s);
      }
      SortedUnique(c, r, t);
    }
  }

  /** Merging two sorted ranges is the stable sort of their concatenation. */
  lemma MergeIsSort<T(!new)>(c: Order<T>, a: seq<T>, b: seq<T>)
    requires c.StrictWeak() && c.Sorted(a) && c.Sorted(b)
    ensures Merge(c, a, b) == StableSort(c, a + b)
  {
    SortConcat(c, a, b);
    SortOfSorted(c, a);
    SortOfSorted(c, b);
  }

  /** Sorting the parts first changes nothing. */
  lemma SortOfSorts<T(!new)>(c: Order<T>, a: seq<T>, b: seq<T>)
    requires c.StrictWeak()
    ensures StableSort(c, StableSort(c, a) + StableSort(c, b)) == StableSort(c, a + b)
    ensures Merge(c, StableSort(c, a), StableSort(c, b)) == StableSort(c, a + b)
  {
    SortConcat(c, a, b);
    SortConcat(c, StableSort(c, a), StableSort(c, b));
    SortSorted(c, a);
    SortSorted(c, b);
    SortOfSorted(c, StableSort(c, a));
    SortOfSorted(c, StableSort(c, b));
  }

  /** Sorted parts in order are sorted already. */
  lemma SortedParts<T(!new)>(c: Order<T>, a: seq<T>, b: seq<T>)
    requires c.StrictWeak() && c.Sorted(a) && c.Sorted(b)
    requires a != [] && b != [] && !c.Less(b[0], a[|a| - 1])
    ensures c.Sorted(a + b) && StableSort(c, a + b) == a + b
  {
    forall i, j | 0 <= i < |a| && 0 <= j < |b| ensures !c.Less(b[j], a[i]) {
      if j > 0 {
        c.LeqTransitive(b[j], b[0], a[|a| - 1]);
      }
      if i < |a| - 1 {
        c.LeqTransitive(b[j], a[|a| - 1], a[i]);
      }
    }
    SortOfSorted(c, a + b);
  }

  /** Merging from the other end with the comparator flipped is the same merge. */
  lemma {:induction false} MergeMirrored<T(!new)>(c: Order<T>, a: seq<T>, b: seq<T>)
    requires c.StrictWeak() && c.Sorted(a) && c.Sorted(b)
    ensures Merge(c.Flip(), Reversed(b), Reversed(a)) == Reversed(Merge(c, a, b))
    decreases |a| + |b|
  {
    hide Merge, c.StrictWeak;
    if a == [] || b == [] {
      MergeNone(c, a, b);
      MergeNone(c.Flip(), Reversed(b), Reversed(a));
    } else if c.Less(b[0], a[0]) {
      assert c.Sorted(b[1..]);
      MergeMirrored(c, a, b[1..]);
      MirroredStep(c, a, b);
      MergeTakesRight(c, a, b);
      ReversedConcat([b[0]], Merge(c, a, b[1..]));
    } else {
      assert c.Sorted(a[1..]);
      MergeMirrored(c, a[1..], b);
      MirroredStep(c, a, b);
      MergeTakesLeft(c, a, b);
      ReversedConcat([a[0]], Merge(c, a[1..], b));
    }
  }

  /** The first element a merge takes is the last one the mirrored merge takes. */
  lemma MirroredStep<T(!new)>(c: Order<T>, a: seq<T>, b: seq<T>)
    requires c.StrictWeak() && c.Sorted(a) && c.Sorted(b) && a != [] && b != []
    ensures Merge(c.Flip(), Reversed(b), Reversed(a)) ==
            if c.Less(b[0], a[0]) then Merge(c.Flip(), Reversed(b[1..]), Reversed(a)) + [b[0]]
            else Merge(c.Flip(), Reversed(b), Reversed(a[1..])) + [a[0]]
  {
    hide Merge;
    var f, ra, rb := c.Flip(), Reversed(a), Reversed(b);
    MergeNone(f, [b[0]], []);
    MergeNone(f, [], [a[0]]);
    assert ra + [] == ra && rb + [] == rb;
    if c.Less(b[0], a[0]) {
      assert rb == Reversed(b[1..]) + [b[0]];
      assert f.AllLess(ra, [b[0]]);
      MergeSplit(f, Reversed(b[1..]), [b[0]], ra, []);
    } else {
      assert ra == Reversed(a[1..]) + [a[0]];
      assert f.AllLeq(rb, [a[0]]);
      MergeSplit(f, rb, [], Reversed(a[1..]), [a[0]]);
    }
  }

  // ----- Rearranges -----

  /** Rearranging the parts rearranges the whole. */
  lemma RearrangesConcat<T(!new)>(c: Order<T>, a: seq<T>, a': seq<T>, b: seq<T>, b': seq<T>)
    requires c.StrictWeak()
    requires Rearranges(c, a, a') && Rearranges(c, b, b')
    ensures Rearranges(c, a + b, a' + b')
  {
    SortConcat(c, a, b);
    SortConcat(c, a', b');
  }

  /** Sorting is one way to rearrange. */
  lemma SortRearranges<T(!new)>(c: Order<T>, s: seq<T>)
    requires c.StrictWeak()
    ensures c.Sorted(StableSort(c, s)) && Rearranges(c, s, StableSort(c, s))
  {
    SortSorted(c, s);
    SortPermutes(c, s);
    SortOfSorted(c, StableSort(c, s));
  }

  /** That is to say, every class of equivalent elements keeps its order. */
  lemma RearrangesMeans<T(!new)>(c: Order<T>, s: seq<T>, r: seq<T>)
    requires c.StrictWeak()
    ensures Rearranges(c, s, r) <==> KeepsClasses(c, s, r)
  {
    StableSortIsTheStableSort(c, s, StableSort(c, s));
    StableSortIsTheStableSort(c, r, StableSort(c, r));
    if KeepsClasses(c, s, r) {
      StableSortIsTheStableSort(c, s, StableSort(c, r));
      SortPermutes(c, s);
      SortPermutes(c, r);
    }
  }
}
