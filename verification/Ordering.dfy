/** The comparator handed to every sorting routine, and what it means for a
    sequence to be sorted by it. */
module Ordering {

  /** A comparator, as the C++ code receives it: a "less than" callable. */
  datatype Order<!T(!new)> = Order(less: (T, T) -> bool) {

    predicate Less(x: T, y: T) {
      less(x, y)
    }

    /** Neither element goes before the other. */
    predicate Equivalent(x: T, y: T) {
      !Less(x, y) && !Less(y, x)
    }

    /** What C++ demands of a comparator: a strict weak order. */
    ghost predicate StrictWeak() {
      && (forall x, y :: Less(x, y) ==> !Less(y, x))
      && (forall x, y, z :: !Less(x, y) && !Less(y, z) ==> !Less(x, z))
    }

    /** Elements in non-descending order. */
    ghost predicate Sorted(s: seq<T>) {
      forall i, j :: 0 <= i < j < |s| ==> !Less(s[j], s[i])
    }

    /** Each element is followed only by elements it is not less than. */
    ghost predicate Descending(s: seq<T>) {
      forall i, j :: 0 <= i < j < |s| ==> !Less(s[i], s[j])
    }

    /** No element of `lo` is greater than an element of `hi`. */
    ghost predicate AllLeq(lo: seq<T>, hi: seq<T>) {
      forall i, j :: 0 <= i < |lo| && 0 <= j < |hi| ==> !Less(hi[j], lo[i])
    }

    /** Every element of `lo` is strictly less than every element of `hi`. */
    ghost predicate AllLess(lo: seq<T>, hi: seq<T>) {
      forall i, j :: 0 <= i < |lo| && 0 <= j < |hi| ==> Less(lo[i], hi[j])
    }

    /** The comparator with its arguments exchanged. */
    function Flip(): Order<T> {
      Order((x, y) => less(y, x))
    }

    lemma LeqTransitive(x: T, y: T, z: T)
      requires StrictWeak() && !Less(x, y) && !Less(y, z)
      ensures !Less(x, z)
    {
    }

    lemma LessLeq(x: T, y: T, z: T)
      requires StrictWeak() && Less(x, y) && !Less(z, y)
      ensures Less(x, z)
    {
    }

    lemma LeqLess(x: T, y: T, z: T)
      requires StrictWeak() && !Less(y, x) && Less(y, z)
      ensures Less(x, z)
    {
    }

    lemma FlipLess(x: T, y: T)
      ensures Flip().Less(x, y) == Less(y, x)
    {
    }

    lemma FlipStrictWeak()
      requires StrictWeak()
      ensures Flip().StrictWeak()
    {
      var f := Flip();
      forall x, y | f.Less(x, y) ensures !f.Less(y, x) {
        FlipLess(x, y);
        FlipLess(y, x);
      }
      forall x, y, z | !f.Less(x, y) && !f.Less(y, z) ensures !f.Less(x, z) {
        FlipLess(x, y);
        FlipLess(y, z);
        FlipLess(x, z);
      }
    }
  }

  /** The elements of `s` in the opposite order. */
  function Reversed<T>(s: seq<T>): (r: seq<T>)
    ensures |r| == |s|
    ensures forall i :: 0 <= i < |s| ==> r[i] == s[|s| - 1 - i]
  {
    seq(|s|, i requires 0 <= i < |s| => s[|s| - 1 - i])
  }

  lemma ReversedConcat<T>(a: seq<T>, b: seq<T>)
    ensures Reversed(a + b) == Reversed(b) + Reversed(a)
  {
  }

  lemma SortedSlice<T(!new)>(c: Order<T>, s: seq<T>, i: int, j: int)
    requires c.Sorted(s) && 0 <= i <= j <= |s|
    ensures c.Sorted(s[i..j])
  {
  }

  /** Neighbours in order are enough for the whole sequence to be sorted. */
  lemma {:induction false} NeighboursSorted<T(!new)>(c: Order<T>, s: seq<T>)
    requires c.StrictWeak()
    requires forall i :: 0 < i < |s| ==> !c.Less(s[i], s[i - 1])
    ensures c.Sorted(s)
  {
    if |s| > 1 {
      var front := s[..|s| - 1];
      NeighboursSorted(c, front);
      forall i, j | 0 <= i < j < |s| ensures !c.Less(s[j], s[i]) {
        if j == |s| - 1 && i < j - 1 {
          assert !c.Less(front[j - 1], front[i]);
          assert !c.Less(s[j], s[j - 1]);
        } else if j < |s| - 1 {
          assert !c.Less(front[j], front[i]);
        }
      }
    }
  }

  /** The same for the opposite direction. */
  lemma {:induction false} NeighboursDescending<T(!new)>(c: Order<T>, s: seq<T>)
    requires c.StrictWeak()
    requires forall i :: 0 < i < |s| ==> !c.Less(s[i - 1], s[i])
    ensures c.Descending(s)
  {
    if |s| > 1 {
      var front := s[..|s| - 1];
      NeighboursDescending(c, front);
      forall i, j | 0 <= i < j < |s| ensures !c.Less(s[i], s[j]) {
        if j == |s| - 1 && i < j - 1 {
          assert !c.Less(front[i], front[j - 1]);
          assert !c.Less(s[j - 1], s[j]);
        } else if j < |s| - 1 {
          assert !c.Less(front[i], front[j]);
        }
      }
    }
  }
}
