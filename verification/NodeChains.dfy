/** A hash bucket as a list of nodes, on values: the main node first, then the dense nodes behind it. */
module NodeChains {
  import opened Sequences

  /** Every node but the last is full, and every dense node holds something. */
  ghost predicate Shape<T>(p: seq<seq<T>>, cap: int) {
    && p != [] && cap > 0
    && (forall k :: 0 <= k < |p| ==> |p[k]| <= cap)
    && (forall k :: 0 <= k < |p| - 1 ==> |p[k]| == cap)
    && forall k :: 0 < k < |p| ==> p[k] != []
  }

  function RemoveAt<T>(s: seq<T>, i: int): (r: seq<T>)
    requires 0 <= i < |s|
    ensures |r| == |s| - 1
  {
    s[..i] + s[i + 1..]
  }

  /** Erasing an element: the last one of each node to the right moves one node to the left, into the
      hole. In the last node the others close up, and a dense node left empty is taken away. */
  ghost function Pull<T>(p: seq<seq<T>>, k: int, pos: int): seq<seq<T>>
    requires 0 <= k < |p| && 0 <= pos < |p[k]| && forall i :: k < i < |p| ==> p[i] != []
    decreases |p| - k
  {
    if k == |p| - 1 then
      var r := RemoveAt(p[k], pos);
      if r == [] && k > 0 then p[..k] else p[k := r]
    else
      var m := |p[k + 1]| - 1;
      Pull(p[k := p[k][pos := p[k + 1][m]]], k + 1, m)
  }

  /** The elements from position `j` of node `k` on. */
  ghost function Rest<T>(p: seq<seq<T>>, k: int, j: int): seq<T>
    requires 0 <= k && 0 <= j && (k < |p| ==> j <= |p[k]|)
  {
    if k < |p| then p[k][j..] + Concat(p[k + 1..]) else []
  }

  lemma {:induction false} PullShape<T>(p: seq<seq<T>>, cap: int, k: int, pos: int)
    requires Shape(p, cap) && 0 <= k < |p| && 0 <= pos < |p[k]|
    ensures Shape(Pull(p, k, pos), cap)
    decreases |p| - k
  {
    if k < |p| - 1 {
      var m := |p[k + 1]| - 1;
      PullShape(p[k := p[k][pos := p[k + 1][m]]], cap, k + 1, m);
    }
  }

  /** Erasing leaves everything in front of the erased element alone. */
  lemma {:induction false} PullFront<T>(p: seq<seq<T>>, k: int, pos: int)
    requires 0 <= k < |p| && 0 <= pos < |p[k]| && forall i :: k < i < |p| ==> p[i] != []
    ensures var r := Pull(p, k, pos);
            && k <= |r| <= |p| && r[..k] == p[..k]
            && (k == |r| ==> pos == 0 && k > 0)
            && (k < |r| ==> pos <= |r[k]| && r[k][..pos] == p[k][..pos])
    ensures k < |p| - 1 ==> k < |Pull(p, k, pos)| && Pull(p, k, pos)[k] == p[k][pos := p[k + 1][|p[k + 1]| - 1]]
    decreases |p| - k
  {
    if k < |p| - 1 {
      var m := |p[k + 1]| - 1;
      var q := p[k := p[k][pos := p[k + 1][m]]];
      PullFront(q, k + 1, m);
      var r := Pull(p, k, pos);
      assert r[..k + 1] == q[..k + 1];
      assert r[..k] == r[..k + 1][..k] && r[k] == r[..k + 1][k];
    }
  }

  /** Of what follows, erasing takes away exactly the one element. */
  lemma {:induction false} PullRest<T>(p: seq<seq<T>>, k: int, pos: int)
    requires 0 <= k < |p| && 0 <= pos < |p[k]| && forall i :: k < i < |p| ==> p[i] != []
    ensures var r := Pull(p, k, pos);
            (k < |r| ==> pos <= |r[k]|) && multiset(Rest(r, k, pos)) == multiset(Rest(p, k, pos + 1))
    decreases |p| - k
  {
    PullFront(p, k, pos);
    var r := Pull(p, k, pos);
    if k == |p| - 1 {
      assert p[k + 1..] == [];
      if k < |r| {
        assert r[k + 1..] == [] && r[k][pos..] == p[k][pos + 1..];
      }
    } else {
      var m := |p[k + 1]| - 1;
      var y := p[k + 1][m];
      var q := p[k := p[k][pos := y]];
      PullRest(q, k + 1, m);
      PullFront(q, k + 1, m);
      RestAfterPull(p, q, r, k, pos);
    }
  }

  lemma RestAfterPull<T>(p: seq<seq<T>>, q: seq<seq<T>>, r: seq<seq<T>>, k: int, pos: int)
    requires 0 <= k < |p| - 1 && 0 <= pos < |p[k]| && p[k + 1] != []
    requires q == p[k := p[k][pos := p[k + 1][|p[k + 1]| - 1]]]
    requires k < |r| && r[k] == q[k]
    requires var m := |p[k + 1]| - 1;
             && (k + 1 == |r| ==> m == 0)
             && (k + 1 < |r| ==> m <= |r[k + 1]| && r[k + 1][..m] == p[k + 1][..m])
             && multiset(Rest(r, k + 1, m)) == multiset(Rest(q, k + 1, m + 1))
    ensures multiset(Rest(r, k, pos)) == multiset(Rest(p, k, pos + 1))
  {
    hide Concat, Rest;
    var m := |p[k + 1]| - 1;
    var y, a, b, z := p[k + 1][m], p[k][pos + 1..], p[k + 1][..m], Concat(p[k + 2..]);
    assert q[k + 2..] == p[k + 2..];
    assert k + 1 == |r| ==> b == [];
    assert q[k][pos..] == [y] + a;
    RestSkipped(q, k + 1, m + 1);
    RestBefore(p, k, pos, m);
    RestNow(r, k, pos, m, y, a, b);
    Exchange(y, a, b, Rest(r, k + 1, m), z);
  }

  lemma RestSkipped<T>(q: seq<seq<T>>, k: int, m: int)
    requires 0 <= k < |q| && 0 <= m == |q[k]|
    ensures Rest(q, k, m) == [] + Concat(q[k + 1..])
  {
    hide Concat;
    assert q[k][m..] == [];
  }

  /** What is behind a position, up to the last element of the next node. */
  lemma RestBefore<T>(p: seq<seq<T>>, k: int, pos: int, m: int)
    requires 0 <= k < |p| - 1 && 0 <= pos < |p[k]| && 0 <= m == |p[k + 1]| - 1
    ensures Rest(p, k, pos + 1) == p[k][pos + 1..] + (p[k + 1][..m] + [p[k + 1][m]] + Concat(p[k + 2..]))
  {
    hide Concat;
    NextNode(p, k, m);
    assert p[k + 1][m..] == [p[k + 1][m]];
  }

  lemma RestNow<T>(r: seq<seq<T>>, k: int, pos: int, m: int, y: T, a: seq<T>, b: seq<T>)
    requires 0 <= k < |r| && 0 <= pos <= |r[k]| && 0 <= m && r[k][pos..] == [y] + a
    requires if k + 1 < |r| then m <= |r[k + 1]| && r[k + 1][..m] == b else b == []
    ensures Rest(r, k, pos) == [y] + a + (b + Rest(r, k + 1, m))
  {
    hide Concat;
    RestTail(r, k, m);
  }

  /** The elements of a node and of those behind it. */
  lemma NextNode<T>(p: seq<seq<T>>, k: int, m: int)
    requires 0 <= k < |p| - 1 && 0 <= m <= |p[k + 1]|
    ensures Concat(p[k + 1..]) == p[k + 1][..m] + p[k + 1][m..] + Concat(p[k + 2..])
  {
    assert p[k + 1..][1..] == p[k + 2..] && p[k + 1] == p[k + 1][..m] + p[k + 1][m..];
  }

  lemma RestTail<T>(r: seq<seq<T>>, k: int, m: int)
    requires 0 <= k < |r| && 0 <= m && (k + 1 < |r| ==> m <= |r[k + 1]|)
    ensures Concat(r[k + 1..]) == (if k + 1 < |r| then r[k + 1][..m] else []) + Rest(r, k + 1, m)
  {
    if k + 1 < |r| {
      NextNode(r, k, m);
      var x, y, z := r[k + 1][..m], r[k + 1][m..], Concat(r[k + 2..]);
      assert x + y + z == x + (y + z);
    }
  }

  lemma Exchange<T>(y: T, a: seq<T>, b: seq<T>, after: seq<T>, z: seq<T>)
    requires multiset(after) == multiset([] + z)
    ensures multiset([y] + a + (b + after)) == multiset(a + (b + [y] + z))
  {
    assert [] + z == z;
  }

  /** All elements, split at a position. */
  lemma ConcatAtRest<T>(p: seq<seq<T>>, k: int, j: int)
    requires 0 <= k < |p| && 0 <= j <= |p[k]|
    ensures Concat(p) == Concat(p[..k]) + p[k][..j] + Rest(p, k, j)
  {
    ConcatAround(p, k);
    var x, y, z := Concat(p[..k]), p[k], Concat(p[k + 1..]);
    hide Concat;
    assert y == y[..j] + y[j..];
    assert x + y + z == x + y[..j] + (y[j..] + z);
  }

  /** Erasing removes exactly the element at the position from the bucket. */
  lemma PullRemoves<T>(p: seq<seq<T>>, k: int, pos: int)
    requires 0 <= k < |p| && 0 <= pos < |p[k]| && forall i :: k < i < |p| ==> p[i] != []
    ensures multiset(Concat(Pull(p, k, pos))) + multiset{p[k][pos]} == multiset(Concat(p))
    ensures |Concat(Pull(p, k, pos))| + 1 == |Concat(p)|
  {
    hide *;
    var r, x, all := Pull(p, k, pos), p[k][pos], Concat(p);
    PullFront(p, k, pos);
    PullRest(p, k, pos);
    RestStep(p, k, pos);
    ConcatAtRest(p, k, pos);
    ConcatAfterPull(p, r, k, pos);
    OneLess(all, Concat(r), Concat(p[..k]), p[k][..pos], x, Rest(p, k, pos), Rest(r, k, pos), Rest(p, k, pos + 1));
  }

  lemma RestStep<T>(p: seq<seq<T>>, k: int, pos: int)
    requires 0 <= k < |p| && 0 <= pos < |p[k]|
    ensures Rest(p, k, pos) == [p[k][pos]] + Rest(p, k, pos + 1)
  {
    var x, a, z := p[k][pos], p[k][pos + 1..], Concat(p[k + 1..]);
    assert p[k][pos..] == [x] + a;
    hide Concat;
    assert [x] + a + z == [x] + (a + z);
  }

  lemma ConcatAfterPull<T>(p: seq<seq<T>>, r: seq<seq<T>>, k: int, pos: int)
    requires 0 <= k < |p| && 0 <= pos < |p[k]| && k <= |r| && r[..k] == p[..k]
    requires k == |r| ==> pos == 0
    requires k < |r| ==> pos <= |r[k]| && r[k][..pos] == p[k][..pos]
    ensures Concat(r) == Concat(p[..k]) + p[k][..pos] + Rest(r, k, pos)
  {
    if k < |r| {
      ConcatAtRest(r, k, pos);
    } else {
      assert r == r[..k] && p[k][..0] == [];
      assert Concat(r) + [] + [] == Concat(r);
    }
  }

  lemma OneLess<T>(all: seq<T>, r: seq<T>, f: seq<T>, g: seq<T>, x: T, w: seq<T>, u: seq<T>, v: seq<T>)
    requires all == f + g + w && w == [x] + v && r == f + g + u && multiset(u) == multiset(v)
    ensures multiset(r) + multiset{x} == multiset(all) && |r| + 1 == |all|
  {
    assert |multiset(u)| == |u| && |multiset(v)| == |v|;
  }

  // ----- Erasing by a predicate -----

  /** A predicate of the caller's. */
  datatype Predicate<!T> = Predicate(test: T -> bool) {

    predicate Test(x: T) {
      test(x)
    }
  }

  /** The elements that the predicate rejects. */
  ghost function Kept<T>(f: Predicate<T>, s: seq<T>): seq<T> {
    if s == [] then [] else (if f.Test(s[0]) then [] else [s[0]]) + Kept(f, s[1..])
  }

  /** Of the elements `was`, those that the predicate rejects are left, in any order; each was visited
      once; and `removed` were erased. */
  ghost predicate Swept<T>(f: Predicate<T>, was: seq<T>, now: seq<T>, visited: seq<T>, removed: int) {
    multiset(now) == multiset(Kept(f, was)) && multiset(visited) == multiset(was) && removed == |was| - |now|
  }

  lemma NothingSwept<T>(f: Predicate<T>)
    ensures Swept(f, [], [], [], 0)
  {
  }

  lemma NoneKept<T>(f: Predicate<T>)
    ensures Kept(f, []) == []
  {
  }

  /** Of each element that the predicate rejects, all occurrences are kept, and none of any other. */
  lemma {:induction false} KeptMeans<T>(f: Predicate<T>, s: seq<T>, x: T)
    ensures multiset(Kept(f, s))[x] == if f.test(x) then 0 else multiset(s)[x]
  {
    if s != [] {
      KeptMeans(f, s[1..], x);
      assert s == [s[0]] + s[1..];
    }
  }

  lemma KeptStep<T>(f: Predicate<T>, x: T, s: seq<T>)
    ensures Kept(f, [x] + s) == (if f.Test(x) then [] else [x]) + Kept(f, s)
  {
    assert ([x] + s)[1..] == s;
  }

  /** One more element, which stays or goes. */
  lemma SweepOne<T>(f: Predicate<T>, x: T, was: seq<T>, now: seq<T>, visited: seq<T>, removed: int, after: seq<T>)
    requires Swept(f, was, now, visited, removed)
    requires multiset(after) == if f.Test(x) then multiset(now) else multiset([x] + now)
    ensures Swept(f, [x] + was, after, visited + [x], if f.Test(x) then removed + 1 else removed)
  {
    hide Kept;
    var k := Kept(f, was);
    KeptStep(f, x, was);
    assert |multiset(after)| == |after| && |multiset(now)| == |now| && |multiset([x] + now)| == 1 + |now|;
    if f.Test(x) {
      assert [] + k == k;
    }
    assert multiset(visited + [x]) == multiset([x] + was);
  }

  /** Where nodes `k` and before are untouched, sweeping goes on at the end of node `k`. */
  lemma RestOfPrevious<T>(p: seq<seq<T>>, k: int)
    requires 0 < k <= |p|
    ensures Rest(p, k - 1, |p[k - 1]|) == Rest(p, k, 0)
  {
    assert p[k - 1][|p[k - 1]|..] == [];
    if k < |p| {
      assert p[k..][0] == p[k] && p[k..][1..] == p[k + 1..];
      assert p[k][0..] == p[k];
    }
  }

  /** `p` still is what `q` was, up to position `j` of node `k`. */
  ghost predicate SameFront<T>(q: seq<seq<T>>, p: seq<seq<T>>, k: int, j: int) {
    && 0 <= k < |q| && 0 <= j <= |q[k]| && k <= |p| <= |q| && p[..k] == q[..k]
    && (k == |p| ==> j == 0 && k > 0)
    && (k < |p| ==> j <= |p[k]| && p[k][..j] == q[k][..j])
  }

  /** One turn of erase_if: the element at `j` goes, or stays. */
  lemma SweepAt<T>(f: Predicate<T>, q: seq<seq<T>>, p: seq<seq<T>>, r: seq<seq<T>>, k: int, j: int, visited: seq<T>,
                   removed: int)
    requires SameFront(q, p, k, j + 1) && 0 <= j && k < |p| && forall i :: k < i < |p| ==> p[i] != []
    requires Swept(f, Rest(q, k, j + 1), Rest(p, k, j + 1), visited, removed)
    requires r == if f.Test(q[k][j]) then Pull(p, k, j) else p
    ensures SameFront(q, r, k, j)
    ensures Swept(f, Rest(q, k, j), Rest(r, k, j), visited + [q[k][j]],
                  if f.Test(q[k][j]) then removed + 1 else removed)
  {
    hide Pull, Rest, Kept, Swept;
    var x := q[k][j];
    assert p[k][j] == p[k][..j + 1][j] == x;
    assert p[k][..j] == p[k][..j + 1][..j] && q[k][..j] == q[k][..j + 1][..j];
    RestStep(q, k, j);
    RestStep(p, k, j);
    PullFront(p, k, j);
    PullRest(p, k, j);
    SweepOne(f, x, Rest(q, k, j + 1), Rest(p, k, j + 1), visited, removed, Rest(r, k, j));
  }

  lemma LastSwept<T>(p: seq<seq<T>>, f: Predicate<T>)
    requires p != []
    ensures var k := |p| - 1; Rest(p, k, |p[k]|) == [] && Swept(f, Rest(p, k, |p[k]|), Rest(p, k, |p[k]|), [], 0)
  {
    var k := |p| - 1;
    assert p[k][|p[k]|..] == [] && p[k + 1..] == [];
    NothingSwept(f);
  }

  lemma WholeRest<T>(p: seq<seq<T>>)
    requires p != []
    ensures Rest(p, 0, 0) == Concat(p)
  {
    assert p[0][0..] == p[0];
  }
}
