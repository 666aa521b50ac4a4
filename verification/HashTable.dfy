/** FlatHashTable of benchs/flat_hash_map.hpp: erasing by key and by predicate, and inserting, over all
    buckets. The number of buckets is a power of two, so masking a hash is taking a remainder. */
module HashTables {
  import opened HashBuckets
  import opened NodeChains
  import opened Sequences
  import opened Wrappers

  /** hash_key of an element. */
  datatype Hash<!T> = Hash(hash: T -> nat) {

    function Of(x: T): nat {
      hash(x)
    }
  }

  /** Equal keys have equal hashes, and the tiny hash is one of the hash. */
  ghost predicate Coherent<T(!new)>(h: Hash<T>, th: TinyHash<T>, eq: KeyEqual<T>) {
    && eq.HashesAgree(th)
    && (forall x, y :: eq.Same(x, y) ==> h.Of(x) == h.Of(y))
  }

  // ----- Sweeping one bucket after another -----

  lemma {:induction false} KeptConcat<T>(f: Predicate<T>, a: seq<T>, b: seq<T>)
    ensures Kept(f, a + b) == Kept(f, a) + Kept(f, b)
  {
    hide Kept;
    if a == [] {
      NoneKept(f);
      assert a + b == b;
    } else {
      var x, rest := a[0], a[1..];
      assert a == [x] + rest && a + b == [x] + (rest + b);
      KeptConcat(f, rest, b);
      KeptStep(f, x, rest);
      KeptStep(f, x, rest + b);
    }
  }

  lemma SweptBoth<T>(f: Predicate<T>, a: seq<T>, a': seq<T>, v: seq<T>, m: int, b: seq<T>, b': seq<T>, w: seq<T>,
                     n: int)
    requires Swept(f, a, a', v, m) && Swept(f, b, b', w, n)
    ensures Swept(f, a + b, a' + b', v + w, m + n)
  {
    KeptConcat(f, a, b);
  }

  /** One more bucket is swept. */
  lemma SweptNext<T>(f: Predicate<T>, was: seq<seq<T>>, now: seq<seq<T>>, v: seq<T>, m: int, i: int, w: seq<T>, n: int)
    requires 0 <= i < |was| == |now|
    requires Swept(f, Concat(was[..i]), Concat(now[..i]), v, m) && Swept(f, was[i], now[i], w, n)
    ensures Swept(f, Concat(was[..i + 1]), Concat(now[..i + 1]), v + w, m + n)
  {
    ConcatNext(was, i);
    ConcatNext(now, i);
    SweptBoth(f, Concat(was[..i]), Concat(now[..i]), v, m, was[i], now[i], w, n);
  }

  lemma NoneSwept<T>(f: Predicate<T>, was: seq<seq<T>>)
    ensures Swept(f, Concat(was[..0]), Concat(was[..0]), [], 0)
  {
    assert was[..0] == [];
    NothingSwept(f);
  }

  // ----- The table -----

  /** Different buckets have no node in common. */
  ghost predicate Apart<T(!new)>(bs: seq<Chain<T>>, lists: seq<seq<Node<T>>>) {
    && |lists| == |bs|
    && (forall i, j :: 0 <= i < j < |bs| ==> bs[i] != bs[j])
    && forall i, j :: 0 <= i < |bs| && 0 <= j < |bs| && i != j ==> Disjoint(lists[i], lists[j])
  }

  ghost predicate Disjoint<T(!new)>(a: seq<Node<T>>, b: seq<Node<T>>) {
    forall n :: n in a ==> n !in b
  }

  ghost function NodesOf<T(!new)>(lists: seq<seq<Node<T>>>): set<Node<T>> {
    set i, k | 0 <= i < |lists| && 0 <= k < |lists[i]| :: lists[i][k]
  }

  /** Every bucket is well formed, and has its nodes and its elements. */
  ghost predicate BucketsHold<T(!new)>(bs: seq<Chain<T>>, lists: seq<seq<Node<T>>>, parts: seq<seq<T>>)
    reads bs, NodesOf(lists)
  {
    && |parts| == |bs| == |lists|
    && forall i :: 0 <= i < |bs| ==> bs[i].nodes == lists[i] && bs[i].Valid() && bs[i].Elements() == parts[i]
  }

  /** Every element is in the bucket that its hash tells. */
  ghost predicate Placed<T(!new)>(h: Hash<T>, parts: seq<seq<T>>) {
    forall i, k :: 0 <= i < |parts| && 0 <= k < |parts[i]| ==> h.Of(parts[i][k]) % |parts| == i
  }

  /** Erasing from a bucket, or inserting what belongs there, keeps every element in its place. */
  lemma StillPlaced<T(!new)>(h: Hash<T>, parts: seq<seq<T>>, i: int, now: seq<T>)
    requires Placed(h, parts) && 0 <= i < |parts|
    requires forall x :: x in now ==> x in parts[i] || h.Of(x) % |parts| == i
    ensures Placed(h, parts[i := now])
  {
    var r := parts[i := now];
    forall j, k | 0 <= j < |r| && 0 <= k < |r[j]| ensures h.Of(r[j][k]) % |r| == j {
      if j == i {
        assert now[k] in now;
      }
    }
  }

  lemma {:induction false} KeptSubset<T>(f: Predicate<T>, s: seq<T>)
    ensures forall x :: x in Kept(f, s) ==> x in s
  {
    if s != [] {
      KeptSubset(f, s[1..]);
    }
  }

  lemma SweptSubset<T>(f: Predicate<T>, was: seq<T>, now: seq<T>, visited: seq<T>, removed: int)
    requires Swept(f, was, now, visited, removed)
    ensures forall x :: x in now ==> x in was
  {
    KeptSubset(f, was);
    forall x | x in now ensures x in was {
      assert x in multiset(now);
      assert x in multiset(Kept(f, was));
    }
  }

  lemma StillApart<T(!new)>(bs: seq<Chain<T>>, lists: seq<seq<Node<T>>>, i: int, list: seq<Node<T>>)
    requires Apart(bs, lists) && 0 <= i < |bs| && forall n :: n in list ==> n in lists[i]
    ensures Apart(bs, lists[i := list]) && NodesOf(lists[i := list]) <= NodesOf(lists)
  {
    var r := lists[i := list];
    forall j, k | 0 <= j < |bs| && 0 <= k < |bs| && j != k ensures Disjoint(r[j], r[k]) {
      assert Disjoint(lists[j], lists[k]);
    }
    forall n | n in NodesOf(r) ensures n in NodesOf(lists) {
      var j, k :| 0 <= j < |r| && 0 <= k < |r[j]| && r[j][k] == n;
      assert n in lists[j];
      var m :| 0 <= m < |lists[j]| && lists[j][m] == n;
    }
  }

  lemma InNodes<T(!new)>(lists: seq<seq<Node<T>>>, i: int)
    requires 0 <= i < |lists|
    ensures forall n :: n in lists[i] ==> n in NodesOf(lists)
  {
    forall n | n in lists[i] ensures n in NodesOf(lists) {
      var k :| 0 <= k < |lists[i]| && lists[i][k] == n;
    }
  }

  /** Erasing from one bucket leaves the others as they are. */
  method SweepAlone<T(!new)>(b: Chain<T>, f: Predicate<T>, ghost i: int, ghost bs: seq<Chain<T>>,
                             ghost ls: seq<seq<Node<T>>>, ghost p: seq<seq<T>>)
    returns (n: int, ghost w: seq<T>, ghost list: seq<Node<T>>, ghost now: seq<T>)
    requires Apart(bs, ls) && BucketsHold(bs, ls, p) && 0 <= i < |bs| == |ls| == |p| && b == bs[i]
    modifies b, ls[i]
    ensures (forall n :: n in list ==> n in ls[i]) && Swept(f, p[i], now, w, n)
    ensures BucketsHold(bs, ls[i := list], p[i := now])
  {
    hide Swept, Disjoint;
    n, w := b.EraseIf(f);
    list, now := b.nodes, b.Elements();
    forall j | 0 <= j < |bs| && j != i ensures bs[j].nodes == ls[j] && bs[j].Valid() && bs[j].Elements() == p[j] {
      assert bs[j] != b;
      NoneShared(ls[j], ls[i]);
      assert forall k :: 0 <= k < |ls[j]| ==> unchanged(ls[j][k]);
    }
  }

  /** The same for erasing a key. */
  method EraseAlone<T(!new)>(b: Chain<T>, f: Predicate<T>, eq: KeyEqual<T>, key: T, ghost i: int,
                             ghost bs: seq<Chain<T>>, ghost ls: seq<seq<Node<T>>>, ghost p: seq<seq<T>>)
    returns (n: int, ghost erased: Option<T>, ghost list: seq<Node<T>>, ghost now: seq<T>)
    requires Apart(bs, ls) && BucketsHold(bs, ls, p) && 0 <= i < |bs| == |ls| == |p| && b == bs[i]
             && eq.HashesAgree(b.th)
    modifies b, ls[i]
    ensures (forall n :: n in list ==> n in ls[i]) && KeyErased(f, eq, key, p[i], now, n, erased)
    ensures BucketsHold(bs, ls[i := list], p[i := now])
  {
    hide KeyErased, Disjoint;
    n, erased := b.EraseKey(f, eq, key);
    list, now := b.nodes, b.Elements();
    forall j | 0 <= j < |bs| && j != i ensures bs[j].nodes == ls[j] && bs[j].Valid() && bs[j].Elements() == p[j] {
      assert bs[j] != b;
      NoneShared(ls[j], ls[i]);
      assert forall k :: 0 <= k < |ls[j]| ==> unchanged(ls[j][k]);
    }
  }

  /** The same for inserting an element, which may take a new node. */
  method InsertAlone<T(!new)>(b: Chain<T>, x: T, eq: KeyEqual<T>, ghost i: int, ghost bs: seq<Chain<T>>,
                              ghost ls: seq<seq<Node<T>>>, ghost p: seq<seq<T>>)
    returns (inserted: bool, ghost list: seq<Node<T>>, ghost now: seq<T>)
    requires Apart(bs, ls) && BucketsHold(bs, ls, p) && 0 <= i < |bs| == |ls| == |p| && b == bs[i]
             && eq.HashesAgree(b.th)
    modifies b, ls[i]
    ensures inserted == NoneSame(eq, x, p[i]) && now == p[i] + if inserted then [x] else []
    ensures BucketsHold(bs, ls[i := list], p[i := now])
    ensures forall n :: n in list ==> n in ls[i] || fresh(n)
    ensures forall n :: n in list ==> n in ls[i] || n !in NodesOf(ls)
  {
    hide NoneSame, Disjoint;
    ghost var before := NodesOf(ls);
    inserted := b.Insert(x, eq);
    list, now := b.nodes, b.Elements();
    assert forall n :: n in list && n !in ls[i] ==> n !in before;
    forall j | 0 <= j < |bs| && j != i ensures bs[j].nodes == ls[j] && bs[j].Valid() && bs[j].Elements() == p[j] {
      assert bs[j] != b;
      NoneShared(ls[j], ls[i]);
      assert forall k :: 0 <= k < |ls[j]| ==> unchanged(ls[j][k]);
    }
  }

  /** A list that has got nodes no bucket had before. */
  lemma ApartWithNew<T(!new)>(bs: seq<Chain<T>>, lists: seq<seq<Node<T>>>, i: int, list: seq<Node<T>>)
    requires Apart(bs, lists) && 0 <= i < |bs| && forall n :: n in list ==> n in lists[i] || n !in NodesOf(lists)
    ensures Apart(bs, lists[i := list])
    ensures forall n :: n in NodesOf(lists[i := list]) ==> n in NodesOf(lists) || n in list
  {
    var r := lists[i := list];
    forall j, k | 0 <= j < |bs| && 0 <= k < |bs| && j != k ensures Disjoint(r[j], r[k]) {
      assert Disjoint(lists[j], lists[k]);
      InNodes(lists, j);
      InNodes(lists, k);
    }
    forall n | n in NodesOf(r) ensures n in NodesOf(lists) || n in list {
      var j, k :| 0 <= j < |r| && 0 <= k < |r[j]| && r[j][k] == n;
      if j != i {
        InNodes(lists, j);
      }
    }
  }

  lemma ApartWithOneMore<T(!new)>(bs: seq<Chain<T>>, lists: seq<seq<Node<T>>>, b: Chain<T>, list: seq<Node<T>>)
    requires Apart(bs, lists) && b !in bs && forall n :: n in list ==> n !in NodesOf(lists)
    ensures Apart(bs + [b], lists + [list])
  {
    var r := lists + [list];
    forall j, k | 0 <= j < |r| && 0 <= k < |r| && j != k ensures Disjoint(r[j], r[k]) {
      if j < |lists| {
        InNodes(lists, j);
      }
      if k < |lists| {
        InNodes(lists, k);
      }
      if j < |lists| && k < |lists| {
        assert Disjoint(lists[j], lists[k]);
      }
    }
  }

  /** One more empty bucket. */
  method AddBucket<T(!new)>(bs: seq<Chain<T>>, cap: int, th: TinyHash<T>, ghost ls: seq<seq<Node<T>>>,
                            ghost p: seq<seq<T>>)
    returns (b: Chain<T>, ghost list: seq<Node<T>>)
    requires cap > 0 && Apart(bs, ls) && BucketsHold(bs, ls, p)
    ensures fresh(b) && fresh(list) && b.th == th
    ensures Apart(bs + [b], ls + [list]) && BucketsHold(bs + [b], ls + [list], p + [[]])
    ensures forall n :: n in NodesOf(ls + [list]) ==> n in NodesOf(ls) || n in list
  {
    ghost var before := NodesOf(ls);
    b := new Chain<T>(cap, th);
    list := b.nodes;
    assert forall n :: n in list ==> n !in before;
    hide Apart, Disjoint, Linked, Shape, OthersHold, Concat;
    assert BucketsHold(bs, ls, p);
    ApartWithOneMore(bs, ls, b, list);
    MoreNodes(ls, list);
  }

  lemma MoreNodes<T(!new)>(lists: seq<seq<Node<T>>>, list: seq<Node<T>>)
    ensures forall n :: n in NodesOf(lists + [list]) ==> n in NodesOf(lists) || n in list
  {
    var r := lists + [list];
    forall n | n in NodesOf(r) ensures n in NodesOf(lists) || n in list {
      var j, k :| 0 <= j < |r| && 0 <= k < |r[j]| && r[j][k] == n;
      if j < |lists| {
        InNodes(lists, j);
      }
    }
  }

  /** Empty buckets, as rehash allocates them. */
  method MakeBuckets<T(!new)>(n: nat, cap: int, th: TinyHash<T>)
    returns (bs: seq<Chain<T>>, ghost ls: seq<seq<Node<T>>>)
    requires cap > 0
    ensures |bs| == n && Apart(bs, ls) && BucketsHold(bs, ls, seq(n, _ => []))
    ensures (forall b :: b in bs ==> b.th == th && fresh(b)) && fresh(NodesOf(ls))
  {
    hide Apart, BucketsHold, NodesOf;
    bs, ls := [], [];
    ghost var p: seq<seq<T>> := [];
    NoBucketsHold<T>();
    while |bs| < n
      invariant |bs| <= n && p == seq(|bs|, _ => [])
      invariant Apart(bs, ls) && BucketsHold(bs, ls, p)
      invariant (forall b :: b in bs ==> b.th == th && fresh(b)) && fresh(NodesOf(ls))
      decreases n - |bs|
    {
      var b;
      ghost var list;
      b, list := AddBucket(bs, cap, th, ls, p);
      bs, ls, p := bs + [b], ls + [list], p + [[]];
    }
  }

  lemma NoBucketsHold<T(!new)>()
    ensures Apart<T>([], []) && BucketsHold<T>([], [], []) && NodesOf<T>([]) == {}
  {
  }

  lemma NoneShared<T(!new)>(a: seq<Node<T>>, b: seq<Node<T>>)
    requires Disjoint(a, b)
    ensures forall k :: 0 <= k < |a| ==> a[k] in a && a[k] !in b
  {
  }

  class FlatHashTable<T(!new)> {
    const buckets: seq<Chain<T>>
    const h: Hash<T>
    const th: TinyHash<T>
    const eq: KeyEqual<T>
    var size: int

    /** The nodes and the elements by bucket. */
    ghost var lists: seq<seq<Node<T>>>
    ghost var parts: seq<seq<T>>

    ghost predicate Valid()
      reads this, buckets, NodesOf(lists)
    {
      && Apart(buckets, lists) && BucketsHold(buckets, lists, parts) && Coherent(h, th, eq) && size == |Concat(parts)|
      && (forall i :: 0 <= i < |buckets| ==> buckets[i].th == th)
      && Placed(h, parts)
    }

    ghost function Elements(): seq<T>
      reads this
    {
      Concat(parts)
    }

    /** A table without buckets, as it is before the first insertion. */
    constructor Empty(h: Hash<T>, th: TinyHash<T>, eq: KeyEqual<T>)
      requires Coherent(h, th, eq)
      ensures Valid() && Elements() == [] && buckets == []
    {
      this.h, this.th, this.eq := h, th, eq;
      buckets, lists, parts, size := [], [], [], 0;
    }

    /** A table of `n` empty buckets, as rehash makes them. */
    constructor WithBuckets(n: nat, cap: int, h: Hash<T>, th: TinyHash<T>, eq: KeyEqual<T>)
      requires Coherent(h, th, eq) && cap > 0
      ensures Valid() && Elements() == [] && |buckets| == n
      ensures (forall b :: b in buckets ==> fresh(b)) && fresh(NodesOf(lists))
    {
      var bs: seq<Chain<T>>;
      ghost var ls: seq<seq<Node<T>>>;
      bs, ls := MakeBuckets(n, cap, th);
      this.h, this.th, this.eq := h, th, eq;
      buckets, lists, size := bs, ls, 0;
      parts := seq(n, _ => []);
      new;
      AllEmpty<T>(n);
    }

    /** insert_policy: inserts an element unless its key is there. There are buckets, for the table has
        been rehashed before. */
    method Insert(x: T) returns (inserted: bool)
      requires Valid() && buckets != []
      modifies this`size, this`parts, this`lists, buckets, NodesOf(lists)
      ensures Valid() && inserted == NoneSame(eq, x, old(Elements()))
      ensures if inserted then multiset(Elements()) == multiset(old(Elements())) + multiset{x}
              else Elements() == old(Elements())
      ensures forall n :: n in NodesOf(lists) ==> n in old(NodesOf(lists)) || fresh(n)
    {
      hide Placed, Apart, BucketsHold, Concat, NoneSame, NodesOf, Disjoint;
      ghost var ls, p := lists, parts;
      Lengths(buckets, ls, p);
      var i := h.Of(x) % |buckets|;
      InNodes(ls, i);
      OnlyInItsBucket(h, th, eq, x, p);
      ghost var list, now;
      inserted, list, now := InsertAlone(buckets[i], x, eq, i, buckets, ls, p);
      StillPlaced(h, p, i, now);
      ApartWithNew(buckets, ls, i, list);
      InsertedInPart(eq, x, p, i, now, inserted);
      Settle(if inserted then -1 else 0, ls[i := list], p[i := now]);
    }

    /** erase_key: goes to the bucket that the hash tells. */
    method EraseKey(f: Predicate<T>, key: T) returns (n: int, ghost erased: Option<T>)
      requires Valid()
      modifies this`size, this`parts, this`lists, buckets, NodesOf(lists)
      ensures Valid() && KeyErased(f, eq, key, old(Elements()), Elements(), n, erased)
      ensures NodesOf(lists) <= old(NodesOf(lists))
    {
      hide Placed, Apart, BucketsHold, Concat, KeyErased, NodesOf, Disjoint;
      ghost var ls, p := lists, parts;
      Lengths(buckets, ls, p);
      if |buckets| == 0 {
        NoBuckets(f, eq, key, p);
        return 0, None;
      }
      var i := h.Of(key) % |buckets|;
      InNodes(ls, i);
      OnlyInItsBucket(h, th, eq, key, p);
      ghost var list, now;
      n, erased, list, now := EraseAlone(buckets[i], f, eq, key, i, buckets, ls, p);
      ErasedSubset(f, eq, key, p[i], now, n, erased);
      StillPlaced(h, p, i, now);
      StillApart(buckets, ls, i, list);
      KeyErasedInPart(f, eq, key, p, i, now, n, erased);
      Settle(n, ls[i := list], p[i := now]);
    }

    /** The new state after one bucket has changed. */
    method Settle(n: int, ghost ls: seq<seq<Node<T>>>, ghost p: seq<seq<T>>)
      requires BucketsHold(buckets, ls, p)
      modifies this`size, this`parts, this`lists
      ensures size == old(size) - n && lists == ls && parts == p && BucketsHold(buckets, lists, parts)
    {
      size := size - n;
      lists := ls;
      parts := p;
    }

    /** The turn of erase_if over one bucket. */
    method SweepBucket(i: int, f: Predicate<T>) returns (n: int, ghost w: seq<T>)
      requires 0 <= i < |buckets| == |lists| && Apart(buckets, lists) && BucketsHold(buckets, lists, parts)
               && Placed(h, parts)
      modifies this`size, this`parts, this`lists, buckets[i], lists[i]
      ensures Apart(buckets, lists) && BucketsHold(buckets, lists, parts) && Placed(h, parts)
      ensures NodesOf(lists) <= old(NodesOf(lists))
      ensures |lists| == |parts| == |old(parts)| && parts == old(parts)[i := parts[i]]
              && Swept(f, old(parts)[i], parts[i], w, n)
      ensures size == old(size) - n
    {
      hide *;
      ghost var ls, p := lists, parts;
      ghost var list, now;
      Lengths(buckets, ls, p);
      n, w, list, now := SweepAlone(buckets[i], f, i, buckets, ls, p);
      SweptSubset(f, p[i], now, w, n);
      StillPlaced(h, p, i, now);
      StillApart(buckets, ls, i, list);
      Settle(n, ls[i := list], p[i := now]);
    }

    /** erase_if: calls the predicate once for every element, leaves exactly those that it rejects and
        returns how many it erased. */
    method EraseIf(f: Predicate<T>) returns (res: int, ghost visited: seq<T>)
      requires Valid()
      modifies this`size, this`parts, this`lists, buckets, NodesOf(lists)
      ensures Valid() && Swept(f, old(Elements()), Elements(), visited, res)
      ensures NodesOf(lists) <= old(NodesOf(lists))
    {
      hide Apart, Placed, Swept, Concat, BucketsHold, NodesOf;
      ghost var was := parts;
      Lengths(buckets, lists, parts);
      res, visited := 0, [];
      NoneSwept(f, was);
      var i := 0;
      while i < |buckets|
        invariant 0 <= i <= |buckets| == |was| == |parts| == |lists| && Apart(buckets, lists)
                  && BucketsHold(buckets, lists, parts) && Placed(h, parts)
        invariant NodesOf(lists) <= old(NodesOf(lists))
        invariant Swept(f, Concat(was[..i]), Concat(parts[..i]), visited, res) && parts[i..] == was[i..]
        invariant size == old(size) - res
      {
        ghost var p := parts;
        var n;
        ghost var w;
        InNodes(lists, i);
        n, w := SweepBucket(i, f);
        NextPart(was, p, parts, i);
        SweptNext(f, was, parts, visited, res, i, w, n);
        res := res + n;
        visited := visited + w;
        i := i + 1;
      }
      assert was[..i] == was && parts[..i] == parts;
      SizeAfter(f, Concat(was), Concat(parts), visited, res);
    }
  }

  /** Erasing a key from its bucket is erasing it from the table. */
  lemma KeyErasedInPart<T(!new)>(f: Predicate<T>, eq: KeyEqual<T>, key: T, parts: seq<seq<T>>, i: int, now: seq<T>,
                                 n: int, erased: Option<T>)
    requires 0 <= i < |parts| && KeyErased(f, eq, key, parts[i], now, n, erased)
    requires forall j :: 0 <= j < |parts| && j != i ==> NoneSame(eq, key, parts[j])
    ensures KeyErased(f, eq, key, Concat(parts), Concat(parts[i := now]), n, erased)
    ensures |Concat(parts[i := now])| == |Concat(parts)| - n
  {
    var r := parts[i := now];
    ConcatAround(parts, i);
    ConcatAround(r, i);
    assert r[..i] == parts[..i] && r[i + 1..] == parts[i + 1..];
    if n == 0 {
      assert r == parts;
      if NoneSame(eq, key, parts[i]) {
        NoneInParts(eq, key, parts);
      } else {
        var x :| x in parts[i] && eq.Same(x, key) && !f.Test(x);
        assert x in Concat(parts);
      }
    } else {
      var a, m, b, x := Concat(parts[..i]), parts[i], Concat(parts[i + 1..]), erased.value;
      hide Concat, NoneSame;
      assert |multiset(now) + multiset{x}| == |now| + 1 && |multiset(m)| == |m|;
      assert x in a + m + b;
      assert multiset(a + now + b) + multiset{x} == multiset(a + m + b);
    }
  }

  /** Inserting into its bucket is inserting into the table. */
  lemma InsertedInPart<T(!new)>(eq: KeyEqual<T>, x: T, parts: seq<seq<T>>, i: int, now: seq<T>, inserted: bool)
    requires 0 <= i < |parts| && inserted == NoneSame(eq, x, parts[i])
             && now == parts[i] + (if inserted then [x] else [])
    requires forall j :: 0 <= j < |parts| && j != i ==> NoneSame(eq, x, parts[j])
    ensures inserted == NoneSame(eq, x, Concat(parts))
    ensures |Concat(parts[i := now])| == |Concat(parts)| + if inserted then 1 else 0
    ensures if inserted then multiset(Concat(parts[i := now])) == multiset(Concat(parts)) + multiset{x}
            else Concat(parts[i := now]) == Concat(parts)
  {
    var r := parts[i := now];
    ConcatAround(parts, i);
    ConcatAround(r, i);
    assert r[..i] == parts[..i] && r[i + 1..] == parts[i + 1..];
    if inserted {
      NoneInParts(eq, x, parts);
    } else {
      assert now == parts[i] && r == parts;
      var k :| 0 <= k < |parts[i]| && eq.Same(parts[i][k], x);
      InConcat(parts, i, k);
    }
  }

  lemma NoBuckets<T(!new)>(f: Predicate<T>, eq: KeyEqual<T>, key: T, parts: seq<seq<T>>)
    requires parts == []
    ensures KeyErased(f, eq, key, Concat(parts), Concat(parts), 0, None)
  {
  }

  lemma OnlyInItsBucket<T(!new)>(h: Hash<T>, th: TinyHash<T>, eq: KeyEqual<T>, key: T, parts: seq<seq<T>>)
    requires Coherent(h, th, eq) && Placed(h, parts) && parts != []
    ensures forall j :: 0 <= j < |parts| && j != h.Of(key) % |parts| ==> NoneSame(eq, key, parts[j])
  {
  }

  lemma ErasedSubset<T(!new)>(f: Predicate<T>, eq: KeyEqual<T>, key: T, was: seq<T>, now: seq<T>, n: int,
                              erased: Option<T>)
    requires KeyErased(f, eq, key, was, now, n, erased)
    ensures forall x :: x in now ==> x in was
  {
    if n != 0 {
      forall x | x in now ensures x in was {
        assert x in multiset(now) + multiset{erased.value};
      }
    }
  }

  lemma Lengths<T(!new)>(bs: seq<Chain<T>>, lists: seq<seq<Node<T>>>, parts: seq<seq<T>>)
    requires BucketsHold(bs, lists, parts)
    ensures |bs| == |lists| == |parts|
  {
  }

  lemma NextPart<T>(was: seq<seq<T>>, p: seq<seq<T>>, r: seq<seq<T>>, i: int)
    requires 0 <= i < |was| == |p| == |r| && p[i..] == was[i..] && r == p[i := r[i]]
    ensures p[i] == was[i] && r[i + 1..] == was[i + 1..] && r[..i] == p[..i]
  {
    assert p[i] == p[i..][0] && was[i] == was[i..][0];
    assert r[i + 1..] == p[i..][1..] && was[i + 1..] == was[i..][1..];
  }

  lemma SizeAfter<T>(f: Predicate<T>, was: seq<T>, now: seq<T>, visited: seq<T>, removed: int)
    requires Swept(f, was, now, visited, removed)
    ensures removed == |was| - |now|
  {
  }

  lemma {:induction false} AllEmpty<T>(n: nat)
    ensures Concat(seq<seq<T>>(n, _ => [])) == []
  {
    if n > 0 {
      AllEmpty<T>(n - 1);
      assert seq<seq<T>>(n, _ => [])[1..] == seq<seq<T>>(n - 1, _ => []);
    }
  }
}
