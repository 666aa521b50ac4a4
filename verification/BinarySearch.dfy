/** The binary searches of seq/internal/binary_search.hpp. */
module BinarySearch {

  /** How an element compares with the value that is looked for: negative if it goes before it,
      positive if the value goes before it. */
  datatype Probe<!T> = Probe(compare: T -> int) {

    predicate Below(x: T) {
      compare(x) < 0
    }

    predicate Matches(x: T) {
      compare(x) == 0
    }

    /** The elements that go before the value come first, those that go after it last. */
    ghost predicate Ordered(s: seq<T>) {
      forall i, j :: 0 <= i < j < |s| ==> (Below(s[j]) ==> Below(s[i])) && (compare(s[i]) > 0 ==> compare(s[j]) > 0)
    }

    ghost predicate AtMostOne(s: seq<T>) {
      forall i, j :: 0 <= i < j < |s| ==> !(Matches(s[i]) && Matches(s[j]))
    }

    /** `r` is the lower bound: the place where the elements that go before the value end. */
    ghost predicate IsBound(s: seq<T>, r: int) {
      && 0 <= r <= |s|
      && (forall i :: 0 <= i < r ==> Below(s[i]))
      && forall i :: r <= i < |s| ==> !Below(s[i])
    }
  }

  /** Which of the three searches is compiled in: for arithmetic keys one that ends with a linear search
      through `rest` elements, for comparators with a three-way comparison one that tells whether it
      found the value, and a plain one. */
  datatype Kind = Arithmetic(rest: nat) | Comparable(multi: bool) | Plain {

    predicate Valid() {
      Arithmetic? ==> rest == 8 || rest == 16 || rest == 32
    }

    /** The same key and comparator: the rest depends on the size of what is searched, too. */
    predicate Alike(other: Kind) {
      this == other || (Arithmetic? && other.Arithmetic?)
    }
  }

  /** Elements are below exactly in front of the bound, so there is but one bound. */
  lemma BelowBound<T(!new)>(p: Probe<T>, s: seq<T>, r: int, i: int)
    requires p.IsBound(s, r) && 0 <= i < |s|
    ensures p.Below(s[i]) <==> i < r
  {
  }

  lemma BoundUnique<T(!new)>(p: Probe<T>, s: seq<T>, q: int, r: int)
    requires p.IsBound(s, q) && p.IsBound(s, r)
    ensures q == r
  {
    if q < r {
      BelowBound(p, s, q, q);
      assert false;
    } else if r < q {
      BelowBound(p, s, r, r);
      assert false;
    }
  }

  /** lower_bound. */
  method LowerBound<T(!new)>(kind: Kind, s: seq<T>, p: Probe<T>) returns (r: int, found: bool)
    requires kind.Valid() && p.Ordered(s) && (kind == Comparable(false) ==> p.AtMostOne(s))
    ensures p.IsBound(s, r)
    ensures found == (kind.Comparable? && r < |s| && p.Matches(s[r]))
  {
    if kind.Arithmetic? {
      r := ArithmeticSearch(kind.rest, s, p);
      found := false;
    } else if kind.Comparable? {
      if kind.multi {
        r, found := MultiSearch(s, p);
      } else {
        r, found := SingleSearch(s, p);
      }
    } else {
      r := PlainSearch(s, p);
      found := false;
    }
  }

  /** Halves the range twice a turn without branching, and goes through the rest one by one. */
  method ArithmeticSearch<T(!new)>(rest: nat, s: seq<T>, p: Probe<T>) returns (r: int)
    requires rest >= 8 && p.Ordered(s)
    ensures p.IsBound(s, r)
  {
    var low, size := 0, |s|;
    while size > rest
      invariant Within(p, s, low, size)
      decreases size
    {
      var half := size / 2;
      low := if p.Below(s[low + half]) then low + size - half else low;
      size := half;
      assert Within(p, s, low, size);
      half := size / 2;
      low := if p.Below(s[low + half]) then low + size - half else low;
      size := half;
    }
    size := size + low;
    while low < size && p.Below(s[low])
      invariant Within(p, s, low, size - low)
    {
      low := low + 1;
    }
    r := low;
  }

  /** The bound is one of the `size + 1` places from `low` on. */
  ghost predicate Within<T(!new)>(p: Probe<T>, s: seq<T>, low: int, size: int) {
    && 0 <= low <= low + size <= |s|
    && (forall i :: 0 <= i < low ==> p.Below(s[i]))
    && forall i :: low + size <= i < |s| ==> !p.Below(s[i])
  }

  /** For comparators with three-way comparison, in a container that may hold equal keys. */
  method MultiSearch<T(!new)>(s: seq<T>, p: Probe<T>) returns (r: int, found: bool)
    requires p.Ordered(s)
    ensures p.IsBound(s, r) && found == (r < |s| && p.Matches(s[r]))
  {
    var first, end := 0, |s|;
    found := false;
    while first != end
      invariant first <= end && Within(p, s, first, end - first)
      invariant found == (end < |s| && p.Matches(s[end]))
      decreases end - first
    {
      var mid := (first + end) / 2;
      var c := p.compare(s[mid]);
      if c < 0 {
        first := mid + 1;
      } else {
        end := mid;
        if c == 0 {
          found := true;
        }
      }
    }
    r := first;
  }

  /** The same without equal keys: it stops where it finds the value. */
  method SingleSearch<T(!new)>(s: seq<T>, p: Probe<T>) returns (r: int, found: bool)
    requires p.Ordered(s) && p.AtMostOne(s)
    ensures p.IsBound(s, r) && found == (r < |s| && p.Matches(s[r]))
  {
    var first, end := 0, |s|;
    while first != end
      invariant first <= end && Within(p, s, first, end - first)
      invariant end < |s| ==> p.compare(s[end]) > 0
      decreases end - first
    {
      var mid := (first + end) / 2;
      var c := p.compare(s[mid]);
      if c < 0 {
        first := mid + 1;
      } else if c > 0 {
        end := mid;
      } else {
        return mid, true;
      }
    }
    return first, false;
  }

  method PlainSearch<T(!new)>(s: seq<T>, p: Probe<T>) returns (r: int)
    requires p.Ordered(s)
    ensures p.IsBound(s, r)
  {
    var at, count := 0, |s|;
    while 0 < count
      invariant Within(p, s, at, count)
    {
      var half := count / 2;
      if p.Below(s[at + half]) {
        at := at + half + 1;
        count := count - (half + 1);
      } else {
        count := half;
      }
    }
    r := at;
  }
}
