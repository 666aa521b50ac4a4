/** The buckets of benchs/flat_hash_map.hpp: a main node and a chain of dense nodes behind it, linked
    both ways, and erasing from them. */
module HashBuckets {
  import opened NodeChains
  import opened Sequences
  import opened Storage
  import opened Wrappers

  /** tiny_hash of the key of an element: one byte, never zero. */
  datatype TinyHash<!T> = TinyHash(hash: T -> int) {

    function Of(x: T): int {
      var h := hash(x) % 256;
      if h == 0 then 1 else h
    }
  }

  /** The equality of keys. */
  datatype KeyEqual<!T(!new)> = KeyEqual(same: (T, T) -> bool) {

    predicate Same(x: T, y: T) {
      same(x, y)
    }

    /** Equal keys have equal hashes. */
    ghost predicate HashesAgree(th: TinyHash<T>) {
      forall x, y :: Same(x, y) ==> th.Of(x) == th.Of(y)
    }
  }

  ghost predicate NoneSame<T(!new)>(eq: KeyEqual<T>, key: T, s: seq<T>) {
    forall i :: 0 <= i < |s| ==> !eq.Same(s[i], key)
  }

  /** What erasing a key does. If it erases nothing, the key is not there, or the functor refused. */
  ghost predicate KeyErased<T(!new)>(f: Predicate<T>, eq: KeyEqual<T>, key: T, was: seq<T>, now: seq<T>, n: int,
                                     erased: Option<T>) {
    if n == 0 then now == was && (NoneSame(eq, key, was) || exists x :: x in was && eq.Same(x, key) && !f.Test(x))
    else
      && n == 1 && erased.Some? && erased.value in was && eq.Same(erased.value, key) && f.Test(erased.value)
      && multiset(now) + multiset{erased.value} == multiset(was)
  }

  /** A node: its count and the tiny hashes in `hashs`, the elements in `vals`. The main node stands
      for the pair of a ConcurrentHashNode and its ConcurrentValueNode. */
  class Node<T> {
    var right: Node?<T>
    var left: Node?<T>
    var hashs: seq<int>
    var vals: seq<Cell<T>>

    constructor (cap: nat, left: Node?<T>)
      ensures right == null && this.left == left
      ensures hashs == seq(cap + 1, _ => 0) && vals == seq(cap, _ => Dead)
    {
      right, this.left := null, left;
      hashs, vals := seq(cap + 1, _ => 0), seq(cap, _ => Dead);
    }

    /** The node holds exactly the elements of `s`. */
    ghost predicate Holds(cap: int, th: TinyHash<T>, s: seq<T>)
      reads this
    {
      Slots(hashs, vals, cap, th, s)
    }

    /** The same but for one place. */
    ghost predicate HasHole(cap: int, th: TinyHash<T>, s: seq<T>, pos: int)
      reads this
    {
      Hole(hashs, vals, cap, th, s, pos)
    }
  }

  /** A node holds exactly the elements of `s`, each with its tiny hash beside it. */
  ghost predicate Slots<T>(hashs: seq<int>, vals: seq<Cell<T>>, cap: int, th: TinyHash<T>, s: seq<T>) {
    && |s| <= cap && |hashs| == cap + 1 && |vals| == cap && hashs[0] == |s|
    && (forall i :: 0 <= i < cap ==> vals[i] == if i < |s| then Live(s[i]) else Dead)
    && forall i :: 0 < i <= cap ==> hashs[i] == if i <= |s| then th.Of(s[i - 1]) else 0
  }

  /** The same but for one place, whose object is going to be replaced or destroyed. */
  ghost predicate Hole<T>(hashs: seq<int>, vals: seq<Cell<T>>, cap: int, th: TinyHash<T>, s: seq<T>, pos: int) {
    && |s| <= cap && |hashs| == cap + 1 && |vals| == cap && hashs[0] == |s| && 0 <= pos < |s| && !vals[pos].Dead?
    && (forall i :: 0 <= i < cap && i != pos ==> vals[i] == if i < |s| then Live(s[i]) else Dead)
    && forall i :: 0 < i <= cap && i != pos + 1 ==> hashs[i] == if i <= |s| then th.Of(s[i - 1]) else 0
  }

  lemma SlotsHole<T>(hashs: seq<int>, vals: seq<Cell<T>>, cap: int, th: TinyHash<T>, s: seq<T>, pos: int)
    requires Slots(hashs, vals, cap, th, s) && 0 <= pos < |s|
    ensures Hole(hashs, vals, cap, th, s, pos) && vals[pos] == Live(s[pos]) && hashs[pos + 1] == th.Of(s[pos])
    ensures Hole(hashs, vals[pos := Moved], cap, th, s, pos)
  {
  }

  /** An element moved into the hole fills it. */
  lemma HoleFilled<T>(hashs: seq<int>, vals: seq<Cell<T>>, cap: int, th: TinyHash<T>, s: seq<T>, pos: int, x: T)
    requires Hole(hashs, vals, cap, th, s, pos)
    ensures Slots(hashs[pos + 1 := th.Of(x)], vals[pos := Live(x)], cap, th, s[pos := x])
  {
  }

  /** std::move of the objects behind the hole, one place to the left. */
  function MovedLeft<T>(vals: seq<Cell<T>>, pos: int, count: int): seq<Cell<T>>
    requires 0 <= pos < count <= |vals|
  {
    if pos + 1 < count then vals[..pos] + vals[pos + 1..count] + [Moved] + vals[count..] else vals
  }

  /** memmove of their tiny hashes. */
  function HashsLeft(hashs: seq<int>, pos: int, count: int): seq<int>
    requires 0 <= pos < count < |hashs|
  {
    if pos + 1 < count then hashs[..pos + 1] + hashs[pos + 2..count + 1] + hashs[count..] else hashs
  }

  /** Moving the elements behind the hole to the left and destroying the last object closes it. */
  lemma HoleClosed<T>(hashs: seq<int>, vals: seq<Cell<T>>, cap: int, th: TinyHash<T>, s: seq<T>, pos: int)
    requires Hole(hashs, vals, cap, th, s, pos)
    ensures !MovedLeft(vals, pos, |s|)[|s| - 1].Dead?
    ensures Slots(HashsLeft(hashs, pos, |s|)[|s| := 0][0 := |s| - 1], MovedLeft(vals, pos, |s|)[|s| - 1 := Dead], cap,
                  th, RemoveAt(s, pos))
  {
    var n, r := |s|, RemoveAt(s, pos);
    var h, v := HashsLeft(hashs, pos, n)[n := 0][0 := n - 1], MovedLeft(vals, pos, n)[n - 1 := Dead];
    forall i | 0 <= i < cap ensures v[i] == if i < |r| then Live(r[i]) else Dead {
      if pos <= i < n - 1 {
        assert v[i] == vals[i + 1];
      }
    }
    forall i | 0 < i <= cap ensures h[i] == if i <= |r| then th.Of(r[i - 1]) else 0 {
      if pos < i < n {
        assert h[i] == hashs[i + 1] && r[i - 1] == s[i];
      }
    }
  }

  // ----- Linked nodes -----

  /** The nodes of a bucket are linked both ways. */
  ghost predicate Linked<T>(ns: seq<Node<T>>)
    reads ns
  {
    && ns != [] && ns[0].left == null && ns[|ns| - 1].right == null
    && (forall k :: 0 <= k < |ns| - 1 ==> ns[k].right == ns[k + 1] && ns[k + 1].left == ns[k])
    && forall i, j :: 0 <= i < j < |ns| ==> ns[i] != ns[j]
  }

  /** Every node but the k-th holds its part. */
  ghost predicate OthersHold<T>(ns: seq<Node<T>>, cap: int, th: TinyHash<T>, p: seq<seq<T>>, k: int)
    requires |p| == |ns|
    reads ns
  {
    forall j :: 0 <= j < |ns| && j != k ==> ns[j].Holds(cap, th, p[j])
  }

  twostate predicate LinksKept<T>(ns: seq<Node<T>>)
    reads ns
  {
    forall j :: 0 <= j < |ns| ==> ns[j].right == old(ns[j].right) && ns[j].left == old(ns[j].left)
  }

  twostate lemma StillLinked<T>(ns: seq<Node<T>>)
    requires LinksKept(ns) && old(Linked(ns))
    ensures Linked(ns)
  {
  }

  /** One turn of the loop of erase_from_dense. */
  method PullStep<T>(n: Node<T>, pos0: int, cap: int, ghost th: TinyHash<T>, ghost ns: seq<Node<T>>, ghost k: int,
                     ghost p0: seq<seq<T>>)
    returns (r: Node<T>, pos: int, ghost p: seq<seq<T>>)
    requires Linked(ns) && 0 <= k < |ns| == |p0| && n == ns[k] && Shape(p0, cap) && n.right != null
    requires n.HasHole(cap, th, p0[k], pos0) && OthersHold(ns, cap, th, p0, k) && 0 <= pos0 < |p0[k]|
    modifies ns
    ensures LinksKept(ns) && k + 1 < |ns| && r == ns[k + 1] && pos == |p0[k + 1]| - 1 && 0 <= pos
    ensures p == p0[k := p0[k][pos0 := p0[k + 1][pos]]]
    ensures r.HasHole(cap, th, p[k + 1], pos) && OthersHold(ns, cap, th, p, k + 1)
  {
    r := n.right;
    assert ns[k].right == r && k + 1 < |ns|;
    assert r == ns[k + 1] && p0[k + 1] != [] && n != r && r.Holds(cap, th, p0[k + 1]);
    pos := MoveFromRight(n, r, cap, th, pos0, p0[k], p0[k + 1]);
    p := p0[k := p0[k][pos0 := p0[k + 1][pos]]];
  }

  /** The loop of erase_from_dense: moves the last element of each node to the right into the hole. */
  method PullElements<T>(n0: Node<T>, pos0: int, cap: int, ghost th: TinyHash<T>, ghost ns: seq<Node<T>>,
                         ghost k0: int, ghost p0: seq<seq<T>>)
    returns (n: Node<T>, pos: int, ghost p: seq<seq<T>>)
    requires Linked(ns) && 0 <= k0 < |ns| == |p0| && n0 == ns[k0] && Shape(p0, cap)
    requires n0.HasHole(cap, th, p0[k0], pos0) && OthersHold(ns, cap, th, p0, k0) && 0 <= pos0 < |p0[k0]|
    requires forall i :: 0 < i < |p0| ==> p0[i] != []
    modifies ns
    ensures LinksKept(ns) && |p| == |ns| && Shape(p, cap) && n == ns[|ns| - 1]
    ensures OthersHold(ns, cap, th, p, |p| - 1) && n.HasHole(cap, th, p[|p| - 1], pos) && 0 <= pos < |p[|p| - 1]|
    ensures Pull(p, |p| - 1, pos) == Pull(p0, k0, pos0)
  {
    hide Pull, Shape, Slots, Hole, OthersHold, Linked;
    n, pos, p := n0, pos0, p0;
    ghost var k := k0;
    Unmoved(ns);
    while n.right != null
      invariant LinksKept(ns) && 0 <= k < |ns| == |p| && n == ns[k] && Shape(p, cap)
      invariant n.HasHole(cap, th, p[k], pos) && 0 <= pos < |p[k]|
      invariant forall i :: 0 < i < |p| ==> p[i] != []
      invariant Pull(p, k, pos) == Pull(p0, k0, pos0)
      invariant OthersHold(ns, cap, th, p, k)
      decreases |ns| - k
    {
      StillLinked(ns);
      PullNext(ns, p, cap, k, pos);
      n, pos, p := PullStep(n, pos, cap, th, ns, k, p);
      k := k + 1;
    }
    StillLinked(ns);
    LastNode(ns, k);
  }

  lemma AllButOne<T>(ns: seq<Node<T>>, cap: int, th: TinyHash<T>, p: seq<seq<T>>, k: int)
    requires |p| == |ns| && OthersHold(ns, cap, th, p, -1) && 0 <= k < |ns|
    ensures OthersHold(ns, cap, th, p, k) && ns[k].Holds(cap, th, p[k])
  {
  }

  lemma DenseNotEmpty<T>(p: seq<seq<T>>, cap: int)
    requires Shape(p, cap)
    ensures cap > 0 && p != [] && forall i :: 0 < i < |p| ==> p[i] != []
  {
  }

  /** Everything erase_from_dense does but for taking an empty node away. */
  method PullAndClose<T>(n0: Node<T>, pos0: int, cap: int, ghost th: TinyHash<T>, ghost ns: seq<Node<T>>,
                         ghost k0: int, ghost p0: seq<seq<T>>)
    returns (n: Node<T>, ghost p: seq<seq<T>>, ghost last: int, ghost pos: int)
    requires Linked(ns) && 0 < k0 < |ns| == |p0| && n0 == ns[k0] && Shape(p0, cap)
    requires n0.HasHole(cap, th, p0[k0], pos0) && OthersHold(ns, cap, th, p0, k0) && 0 <= pos0 < |p0[k0]|
    requires forall i :: 0 < i < |p0| ==> p0[i] != []
    modifies ns
    ensures LinksKept(ns) && Linked(ns) && last == |ns| - 1 && n == ns[last] && |p| == |ns| && 0 <= pos < |p[last]|
    ensures Shape(p, cap) && Pull(p, last, pos) == Pull(p0, k0, pos0)
    ensures OthersHold(ns, cap, th, p[last := RemoveAt(p[last], pos)], -1)
    ensures n.hashs != [] && n.hashs[0] == |p[last]| - 1
  {
    hide Pull, Shape, Slots, Hole, OthersHold, Linked, RemoveAt;
    var at: int;
    n, at, p := PullElements(n0, pos0, cap, th, ns, k0, p0);
    last, pos := |ns| - 1, at;
    StillLinked(ns);
    CloseLast(n, cap, th, ns, p, last, at);
    StillLinked(ns);
  }

  lemma HeldCount<T>(n: Node<T>, cap: int, th: TinyHash<T>, s: seq<T>)
    requires n.Holds(cap, th, s)
    ensures n.hashs != [] && n.hashs[0] == |s|
  {
  }

  /** Closes the hole in the last node; the other nodes do not change. */
  method CloseLast<T>(n: Node<T>, cap: int, ghost th: TinyHash<T>, ghost ns: seq<Node<T>>, ghost p: seq<seq<T>>,
                      ghost last: int, pos: int)
    requires Linked(ns) && |p| == |ns| && last == |ns| - 1 && n == ns[last]
    requires OthersHold(ns, cap, th, p, last) && n.HasHole(cap, th, p[last], pos) && 0 <= pos < |p[last]|
    modifies n`hashs, n`vals
    ensures OthersHold(ns, cap, th, p[last := RemoveAt(p[last], pos)], -1)
    ensures n.hashs != [] && n.hashs[0] == |p[last]| - 1
  {
    hide Slots, Hole;
    ghost var q := p[last := RemoveAt(p[last], pos)];
    CloseHole(n, cap, th, pos, p[last]);
    forall j | 0 <= j < |ns| ensures ns[j].Holds(cap, th, q[j]) {
      if j < last {
        assert ns[j] != ns[last];
      }
    }
    HeldCount(n, cap, th, q[last]);
  }

  /** Takes the last node away. */
  method Unlink<T>(n: Node<T>, ghost before: Node<T>, ghost ns: seq<Node<T>>, ghost last: int, ghost cap: int,
                   ghost th: TinyHash<T>, ghost q: seq<seq<T>>)
    requires Linked(ns) && 0 < last == |ns| - 1 && n == ns[last] && before == ns[last - 1] && |q| == |ns|
             && OthersHold(ns, cap, th, q, -1)
    modifies before`right
    ensures Linked(ns[..last]) && OthersHold(ns[..last], cap, th, q[..last], -1)
  {
    assert ns[last - 1].right == ns[last - 1 + 1] && ns[last - 1 + 1].left == ns[last - 1];
    var prev: Node<T> := n.left;
    prev.right := null;
    ghost var r, p := ns[..last], q[..last];
    forall k | 0 <= k < |r| - 1 ensures r[k].right == r[k + 1] && r[k + 1].left == r[k] {
      assert r[k] == ns[k] && r[k + 1] == ns[k + 1] && ns[k] != ns[last - 1];
    }
    forall j | 0 <= j < |r| ensures r[j].Holds(cap, th, p[j]) {
      assert ns[j].Holds(cap, th, q[j]);
    }
  }

  twostate lemma Unmoved<T>(ns: seq<Node<T>>)
    requires forall j :: 0 <= j < |ns| ==> unchanged(ns[j])
    ensures LinksKept(ns)
  {
  }

  lemma LastNode<T>(ns: seq<Node<T>>, k: int)
    requires Linked(ns) && 0 <= k < |ns|
    ensures ns[k].right == null <==> k == |ns| - 1
  {
    if k < |ns| - 1 {
      var next: Node<T> := ns[k + 1];
      assert ns[k].right == next;
    }
  }

  lemma PullNext<T>(ns: seq<Node<T>>, p: seq<seq<T>>, cap: int, k: int, pos: int)
    requires Linked(ns) && |ns| == |p| && Shape(p, cap) && 0 <= k < |p| && 0 <= pos < |p[k]| && ns[k].right != null
    ensures k + 1 < |p| && p[k + 1] != []
    ensures var m := |p[k + 1]| - 1;
            var q := p[k := p[k][pos := p[k + 1][m]]];
            Shape(q, cap) && (forall i :: 0 < i < |q| ==> q[i] != []) && Pull(q, k + 1, m) == Pull(p, k, pos)
  {
    LastNode(ns, k);
    var m := |p[k + 1]| - 1;
    var q := p[k := p[k][pos := p[k + 1][m]]];
    assert Shape(q, cap);
    PullUnfold(p, k, pos, m, q);
  }

  lemma PullUnfold<T>(p: seq<seq<T>>, k: int, pos: int, m: int, q: seq<seq<T>>)
    requires 0 <= k < |p| - 1 && 0 <= pos < |p[k]| && forall i :: k < i < |p| ==> p[i] != []
    requires m == |p[k + 1]| - 1 && q == p[k := p[k][pos := p[k + 1][m]]]
    ensures Pull(q, k + 1, m) == Pull(p, k, pos)
  {
  }

  /** Where the chain ends. */
  lemma EndOfChain<T>(ns: seq<Node<T>>, p: seq<seq<T>>, cap: int)
    requires Linked(ns) && |p| == |ns| && Shape(p, cap)
    ensures |p[0]| != cap ==> |ns| == 1
    ensures |ns| > 1 ==> ns[0].right == ns[1]
    ensures |ns| == 1 ==> ns[0].right == null
  {
  }

  lemma NothingHeld<T>(hashs: seq<int>, vals: seq<Cell<T>>, cap: int, th: TinyHash<T>)
    requires cap >= 0 && hashs == seq(cap + 1, _ => 0) && vals == seq(cap, _ => Dead)
    ensures Slots(hashs, vals, cap, th, [])
  {
  }

  /** Constructs an element behind those of a node. */
  method PutLast<T>(n: Node<T>, cap: int, th: TinyHash<T>, ghost s: seq<T>, x: T)
    requires n.Holds(cap, th, s) && |s| < cap
    modifies n`hashs, n`vals
    ensures n.Holds(cap, th, s + [x])
  {
    var count := n.hashs[0];
    n.vals := n.vals[count := Live(x)];
    n.hashs := n.hashs[0 := count + 1];
    n.hashs := n.hashs[count + 1 := th.Of(x)];
  }

  /** Links a new node behind the last one. */
  method LinkLast<T>(n: Node<T>, d: Node<T>, ghost ns: seq<Node<T>>)
    requires Linked(ns) && n == ns[|ns| - 1] && d !in ns && d.left == n && d.right == null
    modifies n`right
    ensures Linked(ns + [d])
  {
    n.right := d;
    ghost var r := ns + [d];
    forall k | 0 <= k < |r| - 1 ensures r[k].right == r[k + 1] && r[k + 1].left == r[k] {
      assert r[k] == ns[k];
      if k < |ns| - 1 {
        assert r[k + 1] == ns[k + 1] && ns[k] != ns[|ns| - 1];
      }
    }
  }

  lemma AllHold<T>(ns: seq<Node<T>>, d: Node<T>, cap: int, th: TinyHash<T>, p: seq<seq<T>>, s: seq<T>)
    requires |p| == |ns| && OthersHold(ns, cap, th, p, -1) && d.Holds(cap, th, s)
    ensures OthersHold(ns + [d], cap, th, p + [s], -1)
  {
  }

  lemma ShapeGrown<T>(p: seq<seq<T>>, cap: int, x: T)
    requires Shape(p, cap)
    ensures |p[|p| - 1]| < cap ==> Shape(p[|p| - 1 := p[|p| - 1] + [x]], cap)
    ensures |p[|p| - 1]| == cap ==> Shape(p + [[x]], cap)
  {
  }

  lemma InConcat<T>(p: seq<seq<T>>, k: int, pos: int)
    requires 0 <= k < |p| && 0 <= pos < |p[k]|
    ensures p[k][pos] in Concat(p)
    ensures |Concat(p[..k])| + pos < |Concat(p)| && Concat(p)[|Concat(p[..k])| + pos] == p[k][pos]
  {
    ConcatAround(p, k);
    var x, y, z := Concat(p[..k]), p[k], Concat(p[k + 1..]);
    assert (x + y + z)[|x| + pos] == y[pos];
  }

  lemma {:induction false} NoneInParts<T(!new)>(eq: KeyEqual<T>, key: T, p: seq<seq<T>>)
    requires forall k :: 0 <= k < |p| ==> NoneSame(eq, key, p[k])
    ensures NoneSame(eq, key, Concat(p))
  {
    if p != [] {
      NoneInParts(eq, key, p[1..]);
    }
  }

  lemma ConcatGrown<T>(p: seq<seq<T>>, x: T)
    requires p != []
    ensures Concat(p[|p| - 1 := p[|p| - 1] + [x]]) == Concat(p) + [x]
  {
    var last := |p| - 1;
    var q := p[last := p[last] + [x]];
    ConcatAround(p, last);
    ConcatAround(q, last);
    assert p[last + 1..] == [] && q[last + 1..] == [] && q[..last] == p[..last];
    assert Concat(p[last + 1..]) == [] && Concat(q[last + 1..]) == [];
  }

  lemma ConcatOneMore<T>(p: seq<seq<T>>, x: T)
    ensures Concat(p + [[x]]) == Concat(p) + [x]
  {
    var q := p + [[x]];
    ConcatAround(q, |p|);
    assert q[..|p|] == p && q[|p| + 1..] == [];
    assert Concat(q[|p| + 1..]) == [];
  }

  /** What the parts are after the last step of erase_from_dense. */
  lemma LastPulled<T>(ns: seq<Node<T>>, cap: int, th: TinyHash<T>, p0: seq<seq<T>>, k: int, pos0: int, p: seq<seq<T>>,
                      last: int, pos: int)
    requires 0 < k < |p0| && 0 <= pos0 < |p0[k]| && forall i :: k < i < |p0| ==> p0[i] != []
    requires 0 < last == |p| - 1 && 0 <= pos < |p[last]| && |p| == |ns|
    requires Shape(p, cap) && Pull(p, last, pos) == Pull(p0, k, pos0)
    requires OthersHold(ns, cap, th, p[last := RemoveAt(p[last], pos)], -1)
    ensures var r := Pull(p0, k, pos0);
            && Shape(r, cap)
            && (|p[last]| == 1 ==>
                  r == p[..last] == p[last := []][..last] && OthersHold(ns, cap, th, p[last := []], -1))
            && (|p[last]| != 1 ==> |r| == |p| && OthersHold(ns, cap, th, r, -1))
  {
    PullShape(p, cap, last, pos);
    if |p[last]| == 1 {
      assert RemoveAt(p[last], pos) == [];
    }
  }

  /** The last element of the node to the right moves into the hole; it leaves a hole there. */
  method MoveFromRight<T>(n: Node<T>, r: Node<T>, cap: int, ghost th: TinyHash<T>, pos: int, ghost s: seq<T>,
                          ghost t: seq<T>)
    returns (last: int)
    requires n != r && n.HasHole(cap, th, s, pos) && r.Holds(cap, th, t) && t != []
    modifies n`hashs, n`vals, r`vals
    ensures last == |t| - 1 && n.Holds(cap, th, s[pos := t[last]]) && r.HasHole(cap, th, t, last)
  {
    var count := r.hashs[0];
    SlotsHole(r.hashs, r.vals, cap, th, t, count - 1);
    var x := r.vals[count - 1].value;
    HoleFilled(n.hashs, n.vals, cap, th, s, pos, x);
    r.vals := r.vals[count - 1 := Moved];
    n.vals := n.vals[pos := Live(x)];
    n.hashs := n.hashs[pos + 1 := r.hashs[count]];
    last := count - 1;
  }

  /** The elements behind a hole move to the left, and the last object is destroyed. */
  method CloseHole<T>(n: Node<T>, cap: int, ghost th: TinyHash<T>, pos: int, ghost s: seq<T>)
    requires n.HasHole(cap, th, s, pos)
    modifies n`hashs, n`vals
    ensures n.Holds(cap, th, RemoveAt(s, pos))
  {
    var count := n.hashs[0];
    HoleClosed(n.hashs, n.vals, cap, th, s, pos);
    n.vals := MovedLeft(n.vals, pos, count);
    n.hashs := HashsLeft(n.hashs, pos, count);
    n.hashs := n.hashs[count := 0];
    n.vals := n.vals[count - 1 := Dead];
    n.hashs := n.hashs[0 := n.hashs[0] - 1];
  }

  /** A bucket: its main node and the dense nodes behind it. */
  class Chain<T(!new)> {
    const cap: int
    const th: TinyHash<T>
    const main: Node<T>

    /** The nodes, and the elements that each of them holds. */
    ghost var nodes: seq<Node<T>>
    ghost var parts: seq<seq<T>>

    ghost predicate Valid()
      reads this, nodes
    {
      Linked(nodes) && nodes[0] == main && |parts| == |nodes| && Shape(parts, cap)
      && OthersHold(nodes, cap, th, parts, -1)
    }

    ghost function Elements(): seq<T>
      reads this
    {
      Concat(parts)
    }

    constructor (cap: int, th: TinyHash<T>)
      requires cap > 0
      ensures Valid() && fresh(nodes) && Elements() == [] && this.cap == cap && this.th == th
    {
      this.cap, this.th := cap, th;
      var node := new Node<T>(cap, null);
      main, nodes, parts := node, [node], [[]];
      new;
      assert Concat(parts) == [] + Concat(parts[1..]);
    }

    /** All is well but for one place of node `k`, whose object is going to be replaced or destroyed. */
    ghost predicate ValidBut(k: int, pos: int)
      reads this, nodes
    {
      && Linked(nodes) && nodes[0] == main && |parts| == |nodes| && Shape(parts, cap)
      && 0 <= k < |nodes| && 0 <= pos < |parts[k]|
      && OthersHold(nodes, cap, th, parts, k) && nodes[k].HasHole(cap, th, parts[k], pos)
    }

    /** erase_from_dense: erases position `pos0` of the dense node `n0`, the k-th node of the bucket. */
    method EraseFromDense(n0: Node<T>, pos0: int, ghost k: int)
      requires ValidBut(k, pos0) && 0 < k && n0 == nodes[k]
      modifies this`nodes, this`parts, nodes
      ensures Valid() && |parts| <= |old(nodes)| && nodes == old(nodes)[..|parts|]
      ensures 0 <= k < |old(parts)| && 0 <= pos0 < |old(parts)[k]|
              && (forall i :: k < i < |old(parts)| ==> old(parts)[i] != [])
      ensures parts == Pull(old(parts), k, pos0)
    {
      hide Pull, Shape, OthersHold, Slots, Hole, Linked;
      ghost var ns := nodes;
      DenseNotEmpty(parts, cap);
      var n: Node<T>;
      ghost var p, last, pos;
      n, p, last, pos := PullAndClose(n0, pos0, cap, th, ns, k, parts);
      LastPulled(ns, cap, th, parts, k, pos0, p, last, pos);
      parts := Pull(parts, k, pos0);
      if n.hashs[0] == 0 {
        Unlink(n, ns[last - 1], ns, last, cap, th, p[last := []]);
        nodes := nodes[..last];
      }
    }

    /** erase_from_bucket: erases position `pos` of the main node. */
    method EraseFromBucket(pos: int)
      requires Valid() && 0 <= pos < |parts[0]|
      modifies this`nodes, this`parts, nodes
      ensures Valid() && |parts| <= |old(nodes)| && nodes == old(nodes)[..|parts|]
      ensures parts == Pull(old(parts), 0, pos)
    {
      hide Pull, Slots, Hole, Shape, OthersHold, Linked;
      ghost var was, ns := parts, nodes;
      DenseNotEmpty(was, cap);
      AllButOne(ns, cap, th, was, 0);
      SlotsHole(main.hashs, main.vals, cap, th, was[0], pos);
      LastNode(ns, 0);
      if main.right != null {
        var r, last;
        ghost var p;
        PullNext(ns, was, cap, 0, pos);
        r, last, p := PullStep(main, pos, cap, th, ns, 0, was);
        StillLinked(ns);
        parts := p;
        EraseFromDense(r, last, 1);
      } else {
        EraseFromOnly(pos);
      }
    }

    /** The branch of erase_from_bucket without dense nodes. */
    method EraseFromOnly(pos: int)
      requires Valid() && |nodes| == 1 && 0 <= pos < |parts[0]|
      modifies this`nodes, this`parts, nodes
      ensures Valid() && nodes == old(nodes) && parts == Pull(old(parts), 0, pos) && |parts| == 1
    {
      SlotsHole(main.hashs, main.vals, cap, th, parts[0], pos);
      CloseHole(main, cap, th, pos, parts[0]);
      parts := parts[0 := RemoveAt(parts[0], pos)];
    }

    // ----- Erasing by a predicate -----

    /** The element at a place of a node. */
    method ElementAt(n: Node<T>, pos: int, ghost k: int) returns (x: T)
      requires Valid() && 0 <= k < |nodes| && n == nodes[k] && 0 <= pos < |parts[k]|
      ensures x == parts[k][pos]
    {
      SlotsHole(n.hashs, n.vals, cap, th, parts[k], pos);
      x := n.vals[pos].value;
    }

    method CountOf(n: Node<T>, ghost k: int) returns (count: int)
      requires Valid() && 0 <= k < |nodes| && n == nodes[k]
      ensures count == |parts[k]|
    {
      count := n.hashs[0];
    }

    /** Erases an element of any node; the caller knows whether it is the main one. */
    method EraseAt(n: Node<T>, pos: int, ghost k: int)
      requires Valid() && 0 <= k < |nodes| && n == nodes[k] && 0 <= pos < |parts[k]|
      modifies this`nodes, this`parts, nodes
      ensures Valid() && |parts| <= |old(nodes)| && nodes == old(nodes)[..|parts|]
      ensures 0 <= pos < |old(parts)[k]| && (forall i :: k < i < |old(parts)| ==> old(parts)[i] != [])
      ensures parts == Pull(old(parts), k, pos)
    {
      SlotsHole(n.hashs, n.vals, cap, th, parts[k], pos);
      DenseNotEmpty(parts, cap);
      hide Slots, Hole, Shape, Pull;
      if n == main {
        EraseFromBucket(pos);
      } else {
        EraseFromDense(n, pos, k);
      }
    }

    /** The loop of erase_if over one node, from its last element to its first. `q` are the parts as
        they were at the beginning. */
    method SweepNode(d: Node<T>, f: Predicate<T>, res0: int, ghost k: int, ghost q: seq<seq<T>>, ghost visited0: seq<T>)
      returns (res: int, ghost visited: seq<T>)
      requires Valid() && 0 <= k < |parts| <= |q| && d == nodes[k] && parts[..k + 1] == q[..k + 1]
      requires Swept(f, Rest(q, k, |q[k]|), Rest(parts, k, |parts[k]|), visited0, res0)
      modifies this`nodes, this`parts, nodes
      ensures Valid() && |parts| <= |old(nodes)| && nodes == old(nodes)[..|parts|]
      ensures SameFront(q, parts, k, 0) && Swept(f, Rest(q, k, 0), Rest(parts, k, 0), visited, res)
    {
      hide Slots, Hole, Shape, Pull, OthersHold, Linked, Swept, Rest;
      res, visited := res0, visited0;
      assert parts[k] == parts[..k + 1][k] && parts[..k] == parts[..k + 1][..k];
      var count := CountOf(d, k);
      var j := count - 1;
      while j >= 0
        invariant Valid() && |parts| <= |old(nodes)| && nodes == old(nodes)[..|parts|]
        invariant -1 <= j < |q[k]| && SameFront(q, parts, k, j + 1)
        invariant Swept(f, Rest(q, k, j + 1), Rest(parts, k, j + 1), visited, res)
      {
        res, visited := SweepElement(d, f, j, res, k, q, visited);
        j := j - 1;
      }
    }

    /** One turn of this loop. */
    method SweepElement(d: Node<T>, f: Predicate<T>, j: int, res0: int, ghost k: int, ghost q: seq<seq<T>>,
                        ghost visited0: seq<T>)
      returns (res: int, ghost visited: seq<T>)
      requires Valid() && 0 <= j && SameFront(q, parts, k, j + 1) && d == nodes[k]
      requires Swept(f, Rest(q, k, j + 1), Rest(parts, k, j + 1), visited0, res0)
      modifies this`nodes, this`parts, nodes
      ensures Valid() && |parts| <= |old(nodes)| && nodes == old(nodes)[..|parts|]
      ensures SameFront(q, parts, k, j) && Swept(f, Rest(q, k, j), Rest(parts, k, j), visited, res)
    {
      ghost var p := parts;
      assert p[k][j] == p[k][..j + 1][j] == q[k][j];
      DenseNotEmpty(p, cap);
      hide Swept, Rest, Pull, Shape;
      res, visited := res0, visited0 + [q[k][j]];
      var x := ElementAt(d, j, k);
      if f.Test(x) {
        EraseAt(d, j, k);
        res := res + 1;
      }
      SweepAt(f, q, p, parts, k, j, visited0, res0);
    }

    /** erase_if on one bucket: backwards through the chain and through each node. It visits every
        element once, leaves exactly those that the predicate rejects, and counts the others. */
    method EraseIf(f: Predicate<T>) returns (res: int, ghost visited: seq<T>)
      requires Valid()
      modifies this`nodes, this`parts, nodes
      ensures Valid() && |nodes| <= |old(nodes)| && nodes == old(nodes)[..|nodes|]
      ensures Swept(f, old(Elements()), Elements(), visited, res)
    {
      hide Slots, Hole, Shape, Pull, OthersHold, Linked, Swept, Rest;
      ghost var q := parts;
      var d := LastDense();
      ghost var k := |q| - 1;
      res, visited := 0, [];
      DenseNotEmpty(q, cap);
      LastSwept(q, f);
      while d != null && d != main
        invariant Valid() && 0 <= k < |parts| <= |q| && (if d != null then d == nodes[k] else k == 0)
        invariant |parts| <= |old(nodes)| && nodes == old(nodes)[..|parts|] && parts[..k + 1] == q[..k + 1]
        invariant Swept(f, Rest(q, k, |q[k]|), Rest(parts, k, |parts[k]|), visited, res)
        decreases k
      {
        var prev := LeftOf(d, k);
        res, visited := SweepNode(d, f, res, k, q, visited);
        RestOfPrevious(q, k);
        RestOfPrevious(parts, k);
        d := prev;
        k := k - 1;
      }
      IsMain(d, k);
      res, visited := SweepNode(main, f, res, 0, q, visited);
      WholeRest(q);
      WholeRest(parts);
    }

    /** The last dense node, or null. */
    method LastDense() returns (d: Node?<T>)
      requires Valid()
      ensures if |nodes| == 1 then d == null else d == nodes[|nodes| - 1]
    {
      d := if main.hashs[0] == cap then main.right else null;
      EndOfChain(nodes, parts, cap);
      ghost var k := 1;
      while d != null && d.right != null
        invariant d != null ==> 0 < k < |nodes| && d == nodes[k]
        invariant d == null ==> |nodes| == 1
        decreases |nodes| - k
      {
        LastNode(nodes, k);
        d := d.right;
        k := k + 1;
      }
      if d != null {
        LastNode(nodes, k);
      }
    }

    method LeftOf(d: Node<T>, ghost k: int) returns (prev: Node?<T>)
      requires Valid() && 0 <= k < |nodes| && d == nodes[k] && d != main
      ensures k > 0 && prev == nodes[k - 1]
    {
      assert nodes[k - 1 + 1].left == nodes[k - 1];
      prev := d.left;
    }

    lemma IsMain(d: Node?<T>, k: int)
      requires Valid() && 0 <= k < |nodes| && (if d != null then d == nodes[k] else k == 0) && (d == null || d == main)
      ensures k == 0
    {
    }

    // ----- Finding, erasing and inserting by key -----

    /** FindWithTh on the k-th node: compares keys only where the tiny hash agrees, and misses none. */
    method FindInNode(n: Node<T>, eq: KeyEqual<T>, key: T, ghost k: int) returns (pos: int)
      requires Valid() && 0 <= k < |nodes| && n == nodes[k] && eq.HashesAgree(th)
      ensures -1 <= pos < |parts[k]|
      ensures pos >= 0 ==> eq.Same(parts[k][pos], key)
      ensures pos < 0 ==> NoneSame(eq, key, parts[k])
    {
      AllButOne(nodes, cap, th, parts, k);
      hide OthersHold, Linked, Shape;
      var h := th.Of(key);
      pos := 0;
      while pos < n.hashs[0]
        invariant 0 <= pos <= |parts[k]| && NoneSame(eq, key, parts[k][..pos])
      {
        if n.hashs[pos + 1] == h && eq.Same(n.vals[pos].value, key) {
          return;
        }
        pos := pos + 1;
      }
      assert parts[k][..pos] == parts[k];
      pos := -1;
    }

    /** erase_key on a bucket: if the key is found and the functor agrees, takes that element out. */
    method EraseKey(f: Predicate<T>, eq: KeyEqual<T>, key: T) returns (n: int, ghost erased: Option<T>)
      requires Valid() && eq.HashesAgree(th)
      modifies this`nodes, this`parts, nodes
      ensures Valid() && |nodes| <= |old(nodes)| && nodes == old(nodes)[..|nodes|]
      ensures KeyErased(f, eq, key, old(Elements()), Elements(), n, erased)
    {
      ghost var was := parts;
      var pos := FindInNode(main, eq, key, 0);
      if pos >= 0 {
        n, erased := EraseFound(main, pos, f, eq, key, 0);
        return;
      }
      EndOfChain(nodes, parts, cap);
      if main.hashs[0] != cap || main.right == null {
        NoneInParts(eq, key, was);
        return 0, None;
      }
      n, erased := EraseKeyDense(f, eq, key);
    }

    /** Erases what was found, if the functor agrees. */
    method EraseFound(d: Node<T>, pos: int, f: Predicate<T>, eq: KeyEqual<T>, key: T, ghost k: int)
      returns (n: int, ghost erased: Option<T>)
      requires Valid() && 0 <= k < |nodes| && d == nodes[k] && 0 <= pos < |parts[k]| && eq.Same(parts[k][pos], key)
      modifies this`nodes, this`parts, nodes
      ensures Valid() && |nodes| <= |old(nodes)| && nodes == old(nodes)[..|nodes|]
      ensures KeyErased(f, eq, key, old(Elements()), Elements(), n, erased)
    {
      ghost var p := parts;
      var x := ElementAt(d, pos, k);
      DenseNotEmpty(p, cap);
      hide Slots, Hole, Shape, Pull, OthersHold, Linked, Concat;
      InConcat(p, k, pos);
      if !f.Test(x) {
        return 0, None;
      }
      EraseAt(d, pos, k);
      PullRemoves(p, k, pos);
      return 1, Some(x);
    }

    /** erase_key_dense: goes on in the dense nodes. */
    method EraseKeyDense(f: Predicate<T>, eq: KeyEqual<T>, key: T) returns (n: int, ghost erased: Option<T>)
      requires Valid() && eq.HashesAgree(th) && |nodes| > 1 && NoneSame(eq, key, parts[0])
      modifies this`nodes, this`parts, nodes
      ensures Valid() && |nodes| <= |old(nodes)| && nodes == old(nodes)[..|nodes|]
      ensures KeyErased(f, eq, key, old(Elements()), Elements(), n, erased)
    {
      assert nodes[0].right == nodes[0 + 1];
      var d: Node?<T> := main.right;
      ghost var k := 1;
      while d != null
        invariant Valid() && nodes == old(nodes) && parts == old(parts)
        invariant 0 < k <= |nodes| && (if d != null then k < |nodes| && d == nodes[k] else k == |nodes|)
        invariant forall i :: 0 <= i < k ==> NoneSame(eq, key, parts[i])
        decreases |nodes| - k
      {
        var pos := FindInNode(d, eq, key, k);
        if pos >= 0 {
          n, erased := EraseFound(d, pos, f, eq, key, k);
          return;
        }
        LastNode(nodes, k);
        d := d.right;
        k := k + 1;
      }
      NoneInParts(eq, key, parts);
      return 0, None;
    }

    /** Puts an element behind the last one of the last node, which has room. */
    method Append(n: Node<T>, x: T)
      requires Valid() && n == nodes[|nodes| - 1] && |parts[|nodes| - 1]| < cap
      modifies this`parts, n`hashs, n`vals
      ensures Valid() && Elements() == old(Elements()) + [x] && nodes == old(nodes)
    {
      hide Slots, Hole, Shape, Linked, Concat;
      DenseNotEmpty(parts, cap);
      ghost var last := |nodes| - 1;
      AllButOne(nodes, cap, th, parts, last);
      ShapeGrown(parts, cap, x);
      ConcatGrown(parts, x);
      PutLast(n, cap, th, parts[last], x);
      StillLinked(nodes);
      parts := parts[last := parts[last] + [x]];
    }

    /** InsertNewDense: a new node behind the last one, which is full. */
    method AppendNode(n: Node<T>, x: T)
      requires Valid() && n == nodes[|nodes| - 1] && |parts[|nodes| - 1]| == cap
      modifies this`nodes, this`parts, n`right
      ensures Valid() && Elements() == old(Elements()) + [x]
      ensures |nodes| == |old(nodes)| + 1 && nodes[..|old(nodes)|] == old(nodes) && fresh(nodes[|old(nodes)|])
    {
      hide Slots, Hole, Shape, Linked, Concat;
      DenseNotEmpty(parts, cap);
      ghost var ns := nodes;
      var d := new Node<T>(cap, n);
      NothingHeld(d.hashs, d.vals, cap, th);
      PutLast(d, cap, th, [], x);
      assert [] + [x] == [x];
      LinkLast(n, d, ns);
      ShapeGrown(parts, cap, x);
      ConcatOneMore(parts, x);
      nodes := ns + [d];
      parts := parts + [[x]];
      assert nodes[..|ns|] == ns;
      assert OthersHold(nodes, cap, th, parts, -1) by {
        AllHold(ns, d, cap, th, parts[..|ns|], [x]);
        assert parts[..|ns|] + [[x]] == parts;
      }
    }

    /** FindInsertNode: inserts an element unless its key is there. */
    method Insert(x: T, eq: KeyEqual<T>) returns (inserted: bool)
      requires Valid() && eq.HashesAgree(th)
      modifies this`nodes, this`parts, nodes
      ensures Valid() && inserted == NoneSame(eq, x, old(Elements()))
      ensures Elements() == old(Elements()) + if inserted then [x] else []
      ensures |nodes| >= |old(nodes)| && nodes[..|old(nodes)|] == old(nodes)
      ensures forall n :: n in nodes ==> n in old(nodes) || fresh(n)
    {
      assert Elements() + [] == Elements();
      var pos := FindInNode(main, eq, x, 0);
      if pos >= 0 {
        InConcat(parts, 0, pos);
        return false;
      }
      EndOfChain(nodes, parts, cap);
      if main.hashs[0] != cap {
        NoneInParts(eq, x, parts);
        Append(main, x);
        return true;
      }
      if main.right == null {
        NoneInParts(eq, x, parts);
        AppendNode(main, x);
        return true;
      }
      inserted := InsertDense(x, eq);
    }

    /** FindInsertDense. */
    method InsertDense(x: T, eq: KeyEqual<T>) returns (inserted: bool)
      requires Valid() && eq.HashesAgree(th) && |nodes| > 1 && NoneSame(eq, x, parts[0])
      modifies this`nodes, this`parts, nodes
      ensures Valid() && inserted == NoneSame(eq, x, old(Elements()))
      ensures Elements() == old(Elements()) + if inserted then [x] else []
      ensures |nodes| >= |old(nodes)| && nodes[..|old(nodes)|] == old(nodes)
      ensures forall n :: n in nodes ==> n in old(nodes) || fresh(n)
    {
      assert Elements() + [] == Elements();
      var found, valid := FindInDense(x, eq);
      if found {
        return false;
      }
      AllButOne(nodes, cap, th, parts, |nodes| - 1);
      if valid.hashs[0] == cap {
        AppendNode(valid, x);
      } else {
        Append(valid, x);
      }
      return true;
    }

    /** The loop of FindInsertDense: looks for the key, and for the last node. */
    method FindInDense(x: T, eq: KeyEqual<T>) returns (found: bool, valid: Node<T>)
      requires Valid() && eq.HashesAgree(th) && |nodes| > 1 && NoneSame(eq, x, parts[0])
      ensures found == !NoneSame(eq, x, Elements()) && (!found ==> valid == nodes[|nodes| - 1])
    {
      assert nodes[0].right == nodes[0 + 1];
      var d: Node?<T> := main.right;
      valid := main;
      ghost var k := 1;
      while d != null
        invariant 0 < k <= |nodes| && valid == nodes[k - 1]
                  && (if d != null then k < |nodes| && d == nodes[k] else k == |nodes|)
        invariant forall i :: 0 <= i < k ==> NoneSame(eq, x, parts[i])
        decreases |nodes| - k
      {
        var pos := FindInNode(d, eq, x, k);
        if pos >= 0 {
          InConcat(parts, k, pos);
          return true, valid;
        }
        valid := d;
        LastNode(nodes, k);
        d := d.right;
        k := k + 1;
      }
      NoneInParts(eq, x, parts);
      found := false;
    }
  }
}
