/** The raw storage of seq/devector.hpp: cells in which objects are constructed, moved from, assigned
    and destroyed. The preconditions of these four operations are the rules of object lifetime, so
    every verified use of them keeps the rules. Values of a relocatable type may also be copied to
    another place byte by byte, which ends nothing. */
module Storage {
  import opened Ordering
  import opened Ranges

  /** A cell holds no object, the bytes of a value that were copied to another cell, an object that was
      moved from, or an object with a value. */
  datatype Cell<T> = Dead | Left(value: T) | Moved | Live(value: T) {

    /** There is room for an object. */
    predicate Empty() {
      Dead? || Left?
    }
  }

  /** The storage holds exactly the elements of `s`, from `at` on. */
  ghost predicate Holds<T>(c: seq<Cell<T>>, at: int, s: seq<T>) {
    && 0 <= at && at + |s| <= |c|
    && forall i :: 0 <= i < |c| ==> if at <= i < at + |s| then c[i] == Live(s[i - at]) else c[i].Empty()
  }

  /** The storage holds `front` and `back` around a gap of `n` cells at `at`. */
  ghost predicate Around<T>(c: seq<Cell<T>>, at: int, n: nat, front: seq<T>, back: seq<T>) {
    && |front| <= at && at + n + |back| <= |c|
    && forall i :: 0 <= i < |c| ==>
      if at - |front| <= i < at then c[i] == Live(front[i - (at - |front|)])
      else if at + n <= i < at + n + |back| then c[i] == Live(back[i - (at + n)]) else c[i].Empty()
  }

  /** Copies of `v`. */
  ghost function Repeat<T>(n: int, v: T): (r: seq<T>)
    requires n >= 0
    ensures |r| == n
  {
    seq(n, _ => v)
  }

  /** Objects constructed in empty storage leave a gap in front of them or behind them. */
  lemma BesideGap<T>(c: seq<Cell<T>>, d: seq<Cell<T>>, first: int, last: int, v: T, gap: int, n: nat)
    requires Holds(c, 0, []) && 0 <= first <= last <= |c| == |d|
    requires forall i :: 0 <= i < |c| ==> d[i] == if first <= i < last then Live(v) else c[i]
    ensures 0 <= gap && gap + n == first ==> Around(d, gap, n, [], Repeat(last - first, v))
    ensures gap == last && gap + n <= |c| ==> Around(d, gap, n, Repeat(last - first, v), [])
  {
  }

  /** Destroying elements at an end. */
  lemma Shrunk<T>(c: seq<Cell<T>>, d: seq<Cell<T>>, at: int, s: seq<T>, lo: int, hi: int)
    requires Holds(c, at, s) && 0 <= lo <= hi <= |s|
    requires if lo == 0 then Destroyed(c, d, at + hi, at + |s|) else hi == |s| && Destroyed(c, d, at, at + lo)
    ensures Holds(d, at + lo, s[lo..hi])
  {
  }

  /** Constructing more elements at the ends. */
  lemma Extended<T>(c: seq<Cell<T>>, d: seq<Cell<T>>, at: int, s: seq<T>, m: nat, n: nat, v: T)
    requires Holds(c, at, s) && m <= at && at + |s| + n <= |c| == |d|
    requires forall i :: 0 <= i < |c| ==>
               d[i] == if at - m <= i < at || at + |s| <= i < at + |s| + n then Live(v) else c[i]
    ensures Holds(d, at - m, Repeat(m, v) + s + Repeat(n, v))
  {
  }

  lemma ElementsLive<T>(c: seq<Cell<T>>, at: int, s: seq<T>, lo: int, hi: int)
    requires Holds(c, at, s) && at <= lo <= hi <= at + |s|
    ensures 0 <= at && at + |s| <= |c| && AllLive(c, lo, hi)
  {
  }

  /** Moving destroys nothing. */
  lemma StillAlive<T>(c: seq<Cell<T>>, m: seq<Cell<T>>, first: int, last: int, dst: int, lo: int, hi: int, i: int,
                      j: int)
    requires Shifted(c, m, first, last, dst) && lo <= first && last <= hi && lo <= dst && dst + (last - first) <= hi
    requires AllLive(c, lo, hi) && lo <= i <= j <= hi
    ensures NoneEmpty(m, i, j)
  {
    forall k | i <= k < j ensures !m[k].Empty() {
      if dst <= k < dst + (last - first) {
        assert m[k] == c[k - dst + first];
      }
    }
  }

  lemma NotEmpty<T>(c: seq<Cell<T>>, lo: int, hi: int)
    requires AllLive(c, lo, hi)
    ensures NoneEmpty(c, lo, hi)
  {
  }

  /** Destroying objects leaves others alone. */
  lemma LiveElsewhere<T>(c: seq<Cell<T>>, d: seq<Cell<T>>, first: int, last: int, lo: int, hi: int)
    requires Destroyed(c, d, first, last) && AllLive(c, lo, hi) && (hi <= first || last <= lo)
    ensures AllLive(d, lo, hi) && |d| == |c|
  {
  }

  /** Nor does copying bytes. */
  lemma StillBytes<T>(c: seq<Cell<T>>, m: seq<Cell<T>>, first: int, last: int, dst: int, lo: int, hi: int, i: int)
    requires Relocated(c, m, first, last, dst) && lo <= first && last <= hi && lo <= dst && dst + (last - first) <= hi
    requires AllLive(c, lo, hi) && lo <= i < hi
    ensures i < |m| && !m[i].Dead?
  {
    if dst <= i < dst + (last - first) {
      assert m[i] == c[i - dst + first];
    }
  }

  lemma ElementAt<T>(c: seq<Cell<T>>, at: int, s: seq<T>, i: int)
    requires Holds(c, at, s) && at <= i < at + |s|
    ensures c[i] == Live(s[i - at])
  {
  }

  lemma EmptyStorage<T>(c: seq<Cell<T>>)
    requires Holds(c, 0, [])
    ensures forall i :: 0 <= i < |c| ==> c[i].Empty()
  {
  }

  lemma GapIsEmpty<T>(c: seq<Cell<T>>, at: int, n: nat, front: seq<T>, back: seq<T>)
    requires Around(c, at, n, front, back)
    ensures 0 <= at && at + n <= |c| && forall i :: at <= i < at + n ==> c[i].Empty()
  {
  }

  // ----- Elements moved about -----

  /** std::rotate of elements. */
  lemma RotatedElements<T>(c: seq<Cell<T>>, at: int, s: seq<T>, i: int, k: int, j: int,
                           first: int, mid: int, last: int, x: seq<Cell<T>>, y: seq<Cell<T>>)
    requires Holds(c, at, s) && 0 <= i <= k <= j <= |s| && first == at + i && mid == at + k && last == at + j
    requires x == c[mid..last] && y == c[first..mid]
    ensures Holds(Splice(c, first, x + y), at, s[..i] + s[k..j] + s[i..k] + s[j..])
  {
    var d, r := Splice(c, first, x + y), s[..i] + s[k..j] + s[i..k] + s[j..];
    forall q | 0 <= q < |c| ensures if at <= q < at + |r| then d[q] == Live(r[q - at]) else d[q].Empty() {
      if at + i <= q < at + i + (j - k) {
        assert d[q] == x[q - (at + i)] == c[q + (k - i)];
      } else if at + i + (j - k) <= q < at + j {
        assert d[q] == y[q - (at + i + (j - k))] == c[q - (j - k)];
      }
    }
  }

  /** std::reverse of the first elements. */
  lemma ReversedElements<T>(c: seq<Cell<T>>, at: int, s: seq<T>, n: int, last: int, x: seq<Cell<T>>)
    requires Holds(c, at, s) && 0 <= n <= |s| && last == at + n && x == c[at..last]
    ensures Holds(Splice(c, at, Reversed(x)), at, Reversed(s[..n]) + s[n..])
  {
    var d, r := Splice(c, at, Reversed(x)), Reversed(s[..n]) + s[n..];
    forall i | 0 <= i < |c| ensures if at <= i < at + |r| then d[i] == Live(r[i - at]) else d[i].Empty() {
      if at <= i < at + n {
        assert d[i] == Reversed(x)[i - at] == c[at + (n - 1 - (i - at))];
        assert r[i - at] == Reversed(s[..n])[i - at] == s[n - 1 - (i - at)];
      }
    }
  }

  /** Cells were destroyed. */
  ghost predicate Destroyed<T>(c: seq<Cell<T>>, d: seq<Cell<T>>, first: int, last: int) {
    |d| == |c| && forall i :: 0 <= i < |c| ==> d[i] == if first <= i < last then Dead else c[i]
  }

  /** Objects were move-assigned from `first..last` to the left or right, to `dst`. */
  ghost predicate Shifted<T>(c: seq<Cell<T>>, d: seq<Cell<T>>, first: int, last: int, dst: int) {
    && |d| == |c| && 0 <= first <= last <= |c| && 0 <= dst <= |c| - (last - first)
    && (forall i :: dst <= i < dst + (last - first) ==> d[i] == c[i - dst + first])
    && forall i :: 0 <= i < |c| && !(dst <= i < dst + (last - first)) ==>
         d[i] == if first <= i < last then Moved else c[i]
  }

  /** Values were copied byte by byte from `first..last` to the left or right, to `dst`. */
  ghost predicate Relocated<T>(c: seq<Cell<T>>, d: seq<Cell<T>>, first: int, last: int, dst: int) {
    && |d| == |c| && 0 <= first <= last <= |c| && 0 <= dst <= |c| - (last - first)
    && (forall i :: dst <= i < dst + (last - first) ==> d[i] == c[i - dst + first])
    && forall i :: 0 <= i < |c| && !(dst <= i < dst + (last - first)) ==>
         if first <= i < last then d[i].Left? else d[i] == c[i]
  }

  /** The first `n` elements moved one place to the left, over the first one, and `v` put behind them. */
  lemma InsertedLeft<T>(c: seq<Cell<T>>, m: seq<Cell<T>>, at: int, x: T, s: seq<T>, n: int, v: T)
    requires Holds(c, at, [x] + s) && 0 <= n <= |s|
    requires Shifted(c, m, at + 1, at + 1 + n, at) || Relocated(c, m, at + 1, at + 1 + n, at)
    ensures Holds(m[at + n := Live(v)], at, s[..n] + [v] + s[n..])
  {
    var d, r := m[at + n := Live(v)], s[..n] + [v] + s[n..];
    forall i | 0 <= i < |c| ensures if at <= i < at + |r| then d[i] == Live(r[i - at]) else d[i].Empty() {
      if at <= i < at + n {
        assert c[i - at + (at + 1)] == Live(([x] + s)[i - at + 1]);
      }
    }
  }

  /** Elements moved to the right over a hole, and what is left of them destroyed. */
  lemma ErasedFront<T>(c: seq<Cell<T>>, m: seq<Cell<T>>, d: seq<Cell<T>>, at: int, s: seq<T>, i: int, j: int,
                       last: int, to: int)
    requires Holds(c, at, s) && 0 <= i <= j <= |s| && last == at + i && to == at + (j - i)
    requires Shifted(c, m, at, last, to) && Destroyed(m, d, at, to)
    ensures Holds(d, to, s[..i] + s[j..])
  {
    var r := s[..i] + s[j..];
    forall k | 0 <= k < |c| ensures if to <= k < to + |r| then d[k] == Live(r[k - to]) else d[k].Empty() {
      if to <= k < at + j {
        assert m[k] == c[k - to + at];
      }
    }
  }

  /** Elements moved to the left over a hole, and what is left of them destroyed. */
  lemma ErasedBack<T>(c: seq<Cell<T>>, m: seq<Cell<T>>, d: seq<Cell<T>>, at: int, s: seq<T>, i: int, j: int,
                      first: int, end: int, to: int, newEnd: int)
    requires Holds(c, at, s) && 0 <= i <= j <= |s| && first == at + j && end == at + |s| && to == at + i
             && newEnd == end - (j - i)
    requires Shifted(c, m, first, end, to) && Destroyed(m, d, newEnd, end)
    ensures Holds(d, at, s[..i] + s[j..])
  {
    var r := s[..i] + s[j..];
    forall k | 0 <= k < |c| ensures if at <= k < at + |r| then d[k] == Live(r[k - at]) else d[k].Empty() {
      if at + i <= k < at + |r| {
        assert m[k] == c[k - (at + i) + (at + j)];
      }
    }
  }

  /** Elements copied to the right, byte by byte, over a hole whose elements were destroyed. */
  lemma ErasedFrontBytes<T>(c: seq<Cell<T>>, m: seq<Cell<T>>, d: seq<Cell<T>>, at: int, s: seq<T>, i: int, j: int,
                            last: int, hole: int, to: int)
    requires Holds(c, at, s) && 0 <= i <= j <= |s| && last == at + i && hole == at + j && to == at + (j - i)
    requires Destroyed(c, m, last, hole) && Relocated(m, d, at, last, to)
    ensures Holds(d, to, s[..i] + s[j..])
  {
    var r := s[..i] + s[j..];
    forall k | 0 <= k < |c| ensures if to <= k < to + |r| then d[k] == Live(r[k - to]) else d[k].Empty() {
      if to <= k < hole {
        assert d[k] == m[k - to + at];
      }
    }
  }

  /** Elements copied to the left, byte by byte, over such a hole. */
  lemma ErasedBackBytes<T>(c: seq<Cell<T>>, m: seq<Cell<T>>, d: seq<Cell<T>>, at: int, s: seq<T>, i: int, j: int,
                           first: int, end: int, to: int)
    requires Holds(c, at, s) && 0 <= i <= j <= |s| && first == at + j && end == at + |s| && to == at + i
    requires Destroyed(c, m, to, first) && Relocated(m, d, first, end, to)
    ensures Holds(d, at, s[..i] + s[j..])
  {
    var r := s[..i] + s[j..];
    forall k | 0 <= k < |c| ensures if at <= k < at + |r| then d[k] == Live(r[k - at]) else d[k].Empty() {
      if to <= k < at + |r| {
        assert d[k] == m[k - to + first];
      }
    }
  }

  /** Filling the gap. */
  lemma GapFilled<T>(c: seq<Cell<T>>, d: seq<Cell<T>>, at: int, front: seq<T>, s: seq<T>, back: seq<T>)
    requires Around(c, at, |s|, front, back) && |d| == |c|
    requires forall i :: 0 <= i < |c| ==> d[i] == if at <= i < at + |s| then Live(s[i - at]) else c[i]
    ensures Holds(d, at - |front|, front + s + back)
  {
  }

  ghost predicate AllLive<T>(c: seq<Cell<T>>, lo: int, hi: int) {
    0 <= lo <= hi <= |c| && forall i :: lo <= i < hi ==> c[i].Live?
  }

  ghost predicate NoneEmpty<T>(c: seq<Cell<T>>, lo: int, hi: int) {
    0 <= lo <= hi <= |c| && forall i :: lo <= i < hi ==> !c[i].Empty()
  }

  // ----- The life of an object -----

  /** construct_ptr. */
  method Construct<T>(a: array<Cell<T>>, i: int, v: T)
    requires 0 <= i < a.Length && a[i].Empty()
    modifies a
    ensures a[..] == old(a[..])[i := Live(v)]
  {
    a[i] := Live(v);
  }

  /** destroy_ptr. */
  method Destroy<T>(a: array<Cell<T>>, i: int)
    requires 0 <= i < a.Length && !a[i].Empty()
    modifies a
    ensures a[..] == old(a[..])[i := Dead]
  {
    a[i] := Dead;
  }

  /** std::move of an object, by whoever constructs or assigns with it. */
  method MoveOut<T>(a: array<Cell<T>>, i: int) returns (v: T)
    requires 0 <= i < a.Length && a[i].Live?
    modifies a
    ensures a[..] == old(a[..])[i := Moved] && old(a[i]) == Live(v)
  {
    v := a[i].value;
    a[i] := Moved;
  }

  /** Move-assignment. A value whose bytes were copied may be assigned to; it is plain bytes. */
  method Assign<T>(a: array<Cell<T>>, i: int, v: T)
    requires 0 <= i < a.Length && !a[i].Dead?
    modifies a
    ensures a[..] == old(a[..])[i := Live(v)]
  {
    a[i] := Live(v);
  }

  /** destroy_range. */
  method DestroyRange<T>(a: array<Cell<T>>, first: int, last: int)
    requires NoneEmpty(a[..], first, last)
    modifies a
    ensures Destroyed(old(a[..]), a[..], first, last)
  {
    var p := first;
    while p != last
      invariant first <= p <= last
      invariant forall i :: 0 <= i < a.Length ==> a[i] == if first <= i < p then Dead else old(a[i])
    {
      Destroy(a, p);
      p := p + 1;
    }
  }

  /** construct_range with copies of one value. */
  method ConstructRange<T>(a: array<Cell<T>>, first: int, last: int, v: T)
    requires 0 <= first <= last <= a.Length && forall i :: first <= i < last ==> a[i].Empty()
    modifies a
    ensures forall i :: 0 <= i < a.Length ==> a[i] == if first <= i < last then Live(v) else old(a[i])
  {
    var p := first;
    while p != last
      invariant first <= p <= last
      invariant forall i :: 0 <= i < a.Length ==> a[i] == if first <= i < p then Live(v) else old(a[i])
    {
      Construct(a, p, v);
      p := p + 1;
    }
  }

  /** Constructs an object behind the elements, or in front of them. */
  method ConstructAtEnd<T>(a: array<Cell<T>>, i: int, v: T, ghost at: int, ghost s: seq<T>)
    requires Holds(a[..], at, s) && 0 <= i < a.Length && (i == at + |s| || i == at - 1)
    modifies a
    ensures i == at + |s| ==> Holds(a[..], at, s + [v])
    ensures i == at - 1 ==> Holds(a[..], at - 1, [v] + s)
  {
    Construct(a, i, v);
  }

  /** Constructs an object in empty storage, beside a gap. */
  method ConstructBeside<T>(a: array<Cell<T>>, i: int, v: T, ghost gap: int, ghost n: nat)
    requires Holds(a[..], 0, []) && 0 <= i < a.Length
    modifies a
    ensures 0 <= gap && gap + n == i ==> Around(a[..], gap, n, [], [v])
    ensures gap == i + 1 && gap + n <= a.Length ==> Around(a[..], gap, n, [v], [])
  {
    ghost var b := a[..];
    EmptyStorage(b);
    Construct(a, i, v);
    BesideGap(b, a[..], i, i + 1, v, gap, n);
    assert Repeat(1, v) == [v];
  }

  // ----- Moving elements -----

  /** memcpy of values to cells elsewhere: their bytes are left where they were. */
  method CopyBytes<T>(a: array<Cell<T>>, first: int, n: int, b: array<Cell<T>>, dst: int, ghost s: seq<T>)
    requires Holds(a[..], first, s) && n == |s| && 0 <= dst <= b.Length - n
    requires a == b ==> dst + n <= first || first + n <= dst
    modifies a, b
    ensures forall i :: 0 <= i < a.Length && !(a == b && dst <= i < dst + n) ==>
      a[i] == if first <= i < first + n then Left(s[i - first]) else old(a[i])
    ensures forall i :: 0 <= i < b.Length && (a != b || dst <= i < dst + n) ==>
      b[i] == if dst <= i < dst + n then Live(s[i - dst]) else old(b[i])
  {
    forall i | dst <= i < dst + n {
      b[i] := a[first + (i - dst)];
    }
    forall i | first <= i < first + n {
      a[i] := Left(a[i].value);
    }
  }

  /** copy_destroy_input: to other storage, or inside one storage where source and destination do not
      overlap. Relocatable values are copied byte by byte, and not destroyed; others are moved, by
      moves that do not throw. */
  method CopyDestroyInput<T>(relocatable: bool, a: array<Cell<T>>, first0: int, last: int, b: array<Cell<T>>,
                             dst0: int, ghost s: seq<T>)
    requires Holds(a[..], first0, s) && last == first0 + |s| && 0 <= dst0 <= b.Length - |s|
    requires if a == b then dst0 + |s| <= first0 || last <= dst0
             else forall i :: dst0 <= i < dst0 + |s| ==> b[i].Empty()
    modifies a, b
    ensures a == b ==> Holds(a[..], dst0, s)
    ensures a != b ==> Holds(a[..], 0, [])
    ensures a != b ==> forall i :: 0 <= i < b.Length ==>
                         b[i] == if dst0 <= i < dst0 + |s| then Live(s[i - dst0]) else old(b[i])
    ensures forall i :: first0 <= i < last ==> a[i] == if relocatable then Left(s[i - first0]) else Dead
  {
    if relocatable {
      CopyBytes(a, first0, last - first0, b, dst0, s);
      return;
    }
    var first, dst := first0, dst0;
    while first != last
      invariant first0 <= first <= last && dst - dst0 == first - first0
      invariant forall i :: 0 <= i < a.Length ==>
        if first <= i < last then a[i] == Live(s[i - first0])
        else if a == b && dst0 <= i < dst then a[i] == Live(s[i - dst0]) else a[i].Empty()
      invariant forall i :: first0 <= i < first ==> a[i] == Dead
      invariant a != b ==> forall i :: 0 <= i < b.Length ==>
                             b[i] == if dst0 <= i < dst then Live(s[i - dst0]) else old(b[i])
    {
      var v := MoveOut(a, first);
      Construct(b, dst, v);
      Destroy(a, first);
      first := first + 1;
      dst := dst + 1;
    }
  }

  /** move_destroy_input: the elements move to `dst0`, wherever it lies. */
  method MoveDestroyInput<T>(relocatable: bool, a: array<Cell<T>>, first0: int, last: int, dst0: int, ghost s: seq<T>)
    requires Holds(a[..], first0, s) && last == first0 + |s| && 0 <= dst0 <= a.Length - |s|
    modifies a
    ensures Holds(a[..], dst0, s)
  {
    var size := last - first0;
    if dst0 + size < first0 || dst0 >= last {
      CopyDestroyInput(relocatable, a, first0, last, a, dst0, s);
      return;
    }
    if dst0 == first0 || first0 == last {
      return;
    }
    if dst0 < first0 {
      MoveLeft(a, first0, last, dst0, s);
    } else {
      MoveRight(a, first0, last, dst0, s);
    }
  }

  /** To the left: constructs the cells in front of the elements, assigns over the others in turn and
      destroys what is left behind. */
  method MoveLeft<T>(a: array<Cell<T>>, first0: int, last: int, dst0: int, ghost s: seq<T>)
    requires Holds(a[..], first0, s) && last == first0 + |s| && 0 <= dst0 < first0 <= dst0 + |s|
    modifies a
    ensures Holds(a[..], dst0, s)
  {
    var en, first, dst := first0, first0, dst0;
    while dst < en && first != last
      invariant first0 <= first <= last && dst - dst0 == first - first0 && dst <= first0
      invariant forall i :: 0 <= i < a.Length ==>
        if dst0 <= i < dst then a[i] == Live(s[i - dst0]) else if first0 <= i < first then a[i] == Moved
        else if first <= i < last then a[i] == Live(s[i - first0]) else a[i].Empty()
      decreases last - first
    {
      var v := MoveOut(a, first);
      Construct(a, dst, v);
      dst := dst + 1;
      first := first + 1;
    }
    while first != last
      invariant first0 <= first <= last && dst - dst0 == first - first0 && (dst >= first0 || first == last)
      invariant forall i :: 0 <= i < a.Length ==>
        if dst0 <= i < dst then a[i] == Live(s[i - dst0]) else if first0 <= i < first then a[i] == Moved
        else if first <= i < last then a[i] == Live(s[i - first0]) else a[i].Empty()
      decreases last - first
    {
      var v := MoveOut(a, first);
      Assign(a, dst, v);
      dst := dst + 1;
      first := first + 1;
    }
    DestroyRange(a, dst, last);
  }

  /** To the right: the mirror image, from the last element on. */
  method MoveRight<T>(a: array<Cell<T>>, first: int, last: int, dst: int, ghost s: seq<T>)
    requires Holds(a[..], first, s) && last == first + |s| && first < dst < last && dst + |s| <= a.Length
    modifies a
    ensures Holds(a[..], dst, s)
  {
    var endDst, srcEnd := dst + (last - first), last;
    while endDst != last
      invariant last <= endDst <= dst + |s| && endDst - dst == srcEnd - first
      invariant forall i :: 0 <= i < a.Length ==>
        if endDst <= i < dst + |s| then a[i] == Live(s[i - dst]) else if srcEnd <= i < last then a[i] == Moved
        else if first <= i < srcEnd then a[i] == Live(s[i - first]) else a[i].Empty()
    {
      var v := MoveOut(a, srcEnd - 1);
      Construct(a, endDst - 1, v);
      endDst := endDst - 1;
      srcEnd := srcEnd - 1;
    }
    while endDst != dst
      invariant dst <= endDst <= last && endDst - dst == srcEnd - first
      invariant forall i :: 0 <= i < a.Length ==>
        if endDst <= i < dst + |s| then a[i] == Live(s[i - dst]) else if srcEnd <= i < last then a[i] == Moved
        else if first <= i < srcEnd then a[i] == Live(s[i - first]) else a[i].Empty()
    {
      var v := MoveOut(a, srcEnd - 1);
      Assign(a, endDst - 1, v);
      endDst := endDst - 1;
      srcEnd := srcEnd - 1;
    }
    DestroyRange(a, first, dst);
  }

  /** std::move of a range to the left, over objects that exist. */
  method MoveAssign<T>(a: array<Cell<T>>, first: int, last: int, dst: int)
    requires 0 <= dst < first <= last && AllLive(a[..], dst, last)
    modifies a
    ensures Shifted(old(a[..]), a[..], first, last, dst)
  {
    ghost var c := a[..];
    var p := first;
    while p != last
      invariant first <= p <= last
      invariant forall i :: dst <= i < dst + (p - first) ==> a[i] == c[i - dst + first]
      invariant forall i :: 0 <= i < a.Length && !(dst <= i < dst + (p - first)) ==>
                  a[i] == if first <= i < p then Moved else c[i]
    {
      var v := MoveOut(a, p);
      Assign(a, dst + (p - first), v);
      p := p + 1;
    }
  }

  /** std::move_backward of a range to the right, over objects that exist. */
  method MoveAssignBackward<T>(a: array<Cell<T>>, first: int, last: int, dstEnd: int, ghost dst: int)
    requires first <= last < dstEnd && AllLive(a[..], first, dstEnd) && dst == dstEnd - (last - first)
    modifies a
    ensures Shifted(old(a[..]), a[..], first, last, dst)
  {
    ghost var c := a[..];
    var p := last;
    while p != first
      invariant first <= p <= last
      invariant forall i :: dst + (p - first) <= i < dstEnd ==> a[i] == c[i - dst + first]
      invariant forall i :: 0 <= i < a.Length && !(dst + (p - first) <= i < dstEnd) ==>
                  a[i] == if p <= i < last then Moved else c[i]
    {
      p := p - 1;
      var v := MoveOut(a, p);
      Assign(a, dstEnd - (last - p), v);
    }
  }

  /** memmove of values inside one storage. */
  method ShiftBytes<T>(a: array<Cell<T>>, first: int, last: int, dst: int)
    requires AllLive(a[..], first, last) && 0 <= dst <= a.Length - (last - first)
    modifies a
    ensures Relocated(old(a[..]), a[..], first, last, dst)
  {
    ghost var c := a[..];
    forall i | dst <= i < dst + (last - first) {
      a[i] := a[i - dst + first];
    }
    forall i | first <= i < last && !(dst <= i < dst + (last - first)) {
      a[i] := if a[i].Live? then Left(a[i].value) else a[i];
    }
    assert forall i :: first <= i < last ==> c[i].Live?;
  }

  /** The branch of erase that copies the first elements over the destroyed ones byte by byte. */
  method CloseBytesLeft<T>(a: array<Cell<T>>, at: int, i: int, j: int, ghost s: seq<T>)
    requires Holds(a[..], at, s) && 0 <= i < j <= |s|
    modifies a
    ensures Holds(a[..], at + (j - i), s[..i] + s[j..])
  {
    hide *;
    var last, hole, to := at + i, at + j, at + (j - i);
    ghost var c := a[..];
    ElementsLive(c, at, s, at, last);
    ElementsLive(c, at, s, last, hole);
    NotEmpty(c, last, hole);
    DestroyRange(a, last, hole);
    ghost var m := a[..];
    LiveElsewhere(c, m, last, hole, at, last);
    ShiftBytes(a, at, last, to);
    ErasedFrontBytes(c, m, a[..], at, s, i, j, last, hole, to);
  }

  /** The branch of erase that does this with the last elements. */
  method CloseBytesRight<T>(a: array<Cell<T>>, at: int, i: int, j: int, end: int, ghost s: seq<T>)
    requires Holds(a[..], at, s) && 0 <= i < j <= |s| && end == at + |s|
    modifies a
    ensures Holds(a[..], at, s[..i] + s[j..])
  {
    hide *;
    var first, to := at + j, at + i;
    ghost var c := a[..];
    ElementsLive(c, at, s, first, end);
    ElementsLive(c, at, s, to, first);
    NotEmpty(c, to, first);
    DestroyRange(a, to, first);
    ghost var m := a[..];
    LiveElsewhere(c, m, to, first, first, end);
    ShiftBytes(a, first, end, to);
    ErasedBackBytes(c, m, a[..], at, s, i, j, first, end, to);
  }

  /** Closes the hole `i..j` from the left, which frees the cells of the first elements. */
  method CloseFromLeft<T>(relocatable: bool, a: array<Cell<T>>, at: int, i: int, j: int, ghost s: seq<T>)
    requires Holds(a[..], at, s) && 0 <= i < j <= |s|
    modifies a
    ensures Holds(a[..], at + (j - i), s[..i] + s[j..])
  {
    hide *;
    var last, hole, to := at + i, at + j, at + (j - i);
    ghost var c := a[..];
    ElementsLive(c, at, s, at, hole);
    if relocatable {
      CloseBytesLeft(a, at, i, j, s);
      return;
    }
    MoveAssignBackward(a, at, last, hole, to);
    ghost var m := a[..];
    StillAlive(c, m, at, last, to, at, hole, at, to);
    DestroyRange(a, at, to);
    ErasedFront(c, m, a[..], at, s, i, j, last, to);
  }

  /** Closes the hole `i..j` from the right, which frees the cells of the last elements. */
  method CloseFromRight<T>(relocatable: bool, a: array<Cell<T>>, at: int, i: int, j: int, end: int, ghost s: seq<T>)
    requires Holds(a[..], at, s) && 0 <= i < j <= |s| && end == at + |s|
    modifies a
    ensures Holds(a[..], at, s[..i] + s[j..])
  {
    hide *;
    var first, to, newEnd := at + j, at + i, end - (j - i);
    ghost var c := a[..];
    ElementsLive(c, at, s, to, end);
    if relocatable {
      CloseBytesRight(a, at, i, j, end, s);
      return;
    }
    MoveAssign(a, first, end, to);
    ghost var m := a[..];
    StillAlive(c, m, first, end, to, to, end, newEnd, end);
    DestroyRange(a, newEnd, end);
    ErasedBack(c, m, a[..], at, s, i, j, first, end, to, newEnd);
  }

  /** Moves elements one place to the left, over an object, or copies their bytes there. */
  method MoveOneLeft<T>(relocatable: bool, a: array<Cell<T>>, first: int, last: int, dst: int)
    requires 0 <= dst < first <= last && first == dst + 1 && AllLive(a[..], dst, last)
    modifies a
    ensures Shifted(old(a[..]), a[..], first, last, dst) || Relocated(old(a[..]), a[..], first, last, dst)
    ensures last <= a.Length && !a[last - 1].Dead?
  {
    ghost var c := a[..];
    if relocatable {
      ShiftBytes(a, first, last, dst);
      StillBytes(c, a[..], first, last, dst, dst, last, last - 1);
    } else {
      MoveAssign(a, first, last, dst);
      StillAlive(c, a[..], first, last, dst, dst, last, dst, last);
    }
  }

  /** Moves `n` elements one place to the left, over an object, and assigns `v` behind them. */
  method InsertFromLeft<T>(relocatable: bool, a: array<Cell<T>>, at: int, n: int, v: T, ghost x: T, ghost s: seq<T>)
    requires Holds(a[..], at, [x] + s) && 0 <= n <= |s|
    modifies a
    ensures Holds(a[..], at, s[..n] + [v] + s[n..])
  {
    hide Holds, Shifted, AllLive, Relocated;
    ghost var c := a[..];
    ElementsLive(c, at, [x] + s, at, at + 1 + n);
    MoveOneLeft(relocatable, a, at + 1, at + 1 + n, at);
    ghost var m := a[..];
    Assign(a, at + n, v);
    InsertedLeft(c, m, at, x, s, n, v);
  }

  method RotateElements<T>(a: array<Cell<T>>, at: int, i: int, k: int, j: int, ghost s: seq<T>)
    requires Holds(a[..], at, s) && 0 <= i <= k <= j <= |s|
    modifies a
    ensures Holds(a[..], at, s[..i] + s[k..j] + s[i..k] + s[j..])
  {
    assert 0 <= at && at + |s| <= a.Length;
    hide *;
    var first, mid, last := at + i, at + k, at + j;
    RotatedElements(a[..], at, s, i, k, j, first, mid, last, a[mid..last], a[first..mid]);
    var r := Rotate(a, first, mid, last);
  }

  method ReverseElements<T>(a: array<Cell<T>>, at: int, n: int, ghost s: seq<T>)
    requires Holds(a[..], at, s) && 0 <= n <= |s|
    modifies a
    ensures Holds(a[..], at, Reversed(s[..n]) + s[n..])
  {
    assert 0 <= at && at + |s| <= a.Length;
    hide *;
    var last := at + n;
    ReversedElements(a[..], at, s, n, last, a[at..last]);
    Reverse(a, at, last);
  }
}
