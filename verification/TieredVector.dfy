/** The buckets of seq/tiered_vector.hpp, and the search through them of seq/flat_map.hpp. */
module TieredVectors {
  import opened Arithmetic
  import opened BinarySearch
  import opened Sequences
  import opened Wrappers

  // ----- Circular buffers -----

  /** CircularBuffer, with the copy of its last element that StoreBucket keeps beside it. The capacity
      is a power of two, so masking a position with it is taking a remainder. */
  datatype Bucket<T> = Bucket(buffer: seq<Option<T>>, begin: int, size: int, back: T) {

    ghost predicate Valid(max: int) {
      && 0 <= begin < |buffer| == max && 0 < size <= max
      && (forall i :: 0 <= i < size ==> buffer[Slot(i)].Some?)
      && back == buffer[Slot(size - 1)].value
    }

    /** Where element `i` is stored. */
    function Slot(i: int): (k: int)
      requires 0 <= begin < |buffer| && 0 <= i <= |buffer|
      ensures 0 <= k < |buffer|
    {
      if begin + i >= |buffer| then begin + i - |buffer| else begin + i
    }

    function At(i: int): T
      requires Valid(|buffer|) && 0 <= i < size
    {
      buffer[Slot(i)].value
    }

    /** The elements, in order. */
    ghost function Items(): (s: seq<T>)
      requires Valid(|buffer|)
      ensures |s| == size && s[size - 1] == back
      ensures forall i :: 0 <= i < size ==> s[i] == At(i)
    {
      seq(size, i requires 0 <= i < size => At(i))
    }

    /** How many elements lie before the end of the buffer. */
    function Upper(): int {
      if size < |buffer| - begin then size else |buffer| - begin
    }
  }

  /** Slots without a gap hold elements. */
  ghost predicate Filled<T>(buffer: seq<Option<T>>, from: int, n: int) {
    0 <= from && 0 <= n && from + n <= |buffer| && forall i :: from <= i < from + n ==> buffer[i].Some?
  }

  /** Slots without a gap, as a search through memory sees them. */
  function Segment<T>(buffer: seq<Option<T>>, from: int, n: int): (s: seq<T>)
    requires Filled(buffer, from, n)
    ensures |s| == n && forall i :: 0 <= i < n ==> s[i] == buffer[from + i].value
  {
    seq(n, i requires 0 <= i < n => buffer[from + i].value)
  }

  /** The elements are those up to the end of the buffer and then those at its beginning. */
  lemma Halves<T>(b: Bucket<T>)
    requires b.Valid(|b.buffer|)
    ensures var n := b.Upper();
            && 0 < n <= b.size && Filled(b.buffer, b.begin, n) && Filled(b.buffer, 0, b.size - n)
            && b.Items() == Segment(b.buffer, b.begin, n) + Segment(b.buffer, 0, b.size - n)
    ensures b.begin + b.size > |b.buffer| <==> b.Upper() < b.size
    ensures b.Upper() < b.size ==> b.begin != 0 && b.size - b.Upper() == b.begin + b.size - |b.buffer|
  {
    forall i | b.begin <= i < b.begin + b.Upper() ensures b.buffer[i].Some? {
      assert b.Slot(i - b.begin) == i;
    }
    forall i | 0 <= i < b.size - b.Upper() ensures b.buffer[i].Some? {
      assert b.Slot(i + b.Upper()) == i;
    }
  }

  // ----- Bounds in parts of a sequence -----

  lemma PartOrdered<T(!new)>(p: Probe<T>, x: seq<T>, y: seq<T>, z: seq<T>)
    requires p.Ordered(x + y + z)
    ensures p.Ordered(x) && p.Ordered(y) && p.Ordered(z)
    ensures p.AtMostOne(x + y + z) ==> p.AtMostOne(y)
  {
    var s := x + y + z;
    assert forall i :: 0 <= i < |x| ==> s[i] == x[i];
    forall i, j | 0 <= i < j < |x|
      ensures (p.Below(x[j]) ==> p.Below(x[i])) && (p.compare(x[i]) > 0 ==> p.compare(x[j]) > 0) {
      assert s[i] == x[i] && s[j] == x[j];
    }
    forall i, j | 0 <= i < j < |y|
      ensures (p.Below(y[j]) ==> p.Below(y[i])) && (p.compare(y[i]) > 0 ==> p.compare(y[j]) > 0)
      ensures p.AtMostOne(s) ==> !(p.Matches(y[i]) && p.Matches(y[j])) {
      assert s[|x| + i] == y[i] && s[|x| + j] == y[j];
    }
    forall i, j | 0 <= i < j < |z|
      ensures (p.Below(z[j]) ==> p.Below(z[i])) && (p.compare(z[i]) > 0 ==> p.compare(z[j]) > 0) {
      assert s[|x| + |y| + i] == z[i] && s[|x| + |y| + j] == z[j];
    }
  }

  /** A bound in the middle part is the bound if the first part is below and the middle one is not. */
  lemma BoundInMiddle<T(!new)>(p: Probe<T>, x: seq<T>, y: seq<T>, z: seq<T>, r: int)
    requires p.Ordered(x + y + z) && p.IsBound(y, r)
    requires x == [] || p.Below(x[|x| - 1])
    requires z == [] || (y != [] && !p.Below(y[|y| - 1]))
    ensures p.IsBound(x + y + z, |x| + r)
    ensures r < |y| ==> (x + y + z)[|x| + r] == y[r]
  {
    var s := x + y + z;
    forall i | 0 <= i < |x| + r ensures p.Below(s[i]) {
      if i < |x| - 1 {
        assert s[i] == x[i] && s[|x| - 1] == x[|x| - 1];
      } else if i >= |x| {
        assert s[i] == y[i - |x|];
      }
    }
    forall i | |x| + r <= i < |s| ensures !p.Below(s[i]) {
      if i < |x| + |y| {
        assert s[i] == y[i - |x|];
      } else {
        assert s[|x| + |y| - 1] == y[|y| - 1];
      }
    }
  }

  /** The two halves of a bucket: the second one is searched if the first one is all below. */
  lemma HalfOrdered<T(!new)>(p: Probe<T>, upper: seq<T>, lower: seq<T>)
    requires p.Ordered(upper + lower)
    ensures p.Ordered(upper) && p.Ordered(lower)
    ensures p.AtMostOne(upper + lower) ==> p.AtMostOne(upper) && p.AtMostOne(lower)
  {
    assert [] + upper + lower == upper + lower && upper + lower + [] == upper + lower;
    PartOrdered(p, [], upper, lower);
    PartOrdered(p, upper, lower, []);
  }

  lemma HalfSearched<T(!new)>(p: Probe<T>, upper: seq<T>, lower: seq<T>, lowHalf: bool, r: int)
    requires p.Ordered(upper + lower) && upper != [] && !p.Below((upper + lower)[|upper| + |lower| - 1])
    requires lowHalf == (lower != [] && p.Below(upper[|upper| - 1]))
    requires p.IsBound(if lowHalf then lower else upper, r)
    ensures lowHalf ==> r < |lower| && p.IsBound(upper + lower, |upper| + r) && (upper + lower)[|upper| + r] == lower[r]
    ensures !lowHalf ==> r < |upper| && p.IsBound(upper + lower, r) && (upper + lower)[r] == upper[r]
  {
    assert [] + upper + lower == upper + lower && upper + lower + [] == upper + lower;
    if lowHalf {
      BoundInMiddle(p, upper, lower, [], r);
    } else {
      BoundInMiddle(p, [], upper, lower, r);
    }
  }

  /** The half of a bucket to search: the second one only if the last slot of the buffer is below. */
  method ChooseHalf<T(!new)>(b: Bucket<T>, p: Probe<T>) returns (lowHalf: bool, from: int, n: int)
    requires b.Valid(|b.buffer|)
    ensures var (k, m) := (b.Upper(), b.size - b.Upper());
            && 0 < k <= b.size && Filled(b.buffer, b.begin, k) && Filled(b.buffer, 0, m)
            && lowHalf == (m > 0 && p.Below(Segment(b.buffer, b.begin, k)[k - 1]))
            && (if lowHalf then from == 0 && n == m else from == b.begin && n == k)
    ensures lowHalf ==> b.begin != 0 && |b.buffer| - b.begin == b.Upper()
  {
    Halves(b);
    var max := |b.buffer|;
    lowHalf := b.begin != 0 && b.begin + b.size > max && p.Below(b.buffer[max - 1].value);
    n := if lowHalf then b.begin + b.size - max else b.Upper();
    from := if lowHalf then 0 else b.begin;
  }

  lemma SizeInBounds<T>(b: Bucket<T>)
    requires b.Valid(|b.buffer|)
    ensures 0 < b.size == |b.Items()| && b.Items()[b.size - 1] == b.back
  {
  }

  /** The search in one bucket: through one half of it. */
  method SearchBucket<T(!new)>(kind: Kind, b: Bucket<T>, p: Probe<T>) returns (r: int, found: bool)
    requires kind.Valid() && b.Valid(|b.buffer|) && p.Ordered(b.Items()) && !p.Below(b.back)
    requires kind == Comparable(false) ==> p.AtMostOne(b.Items())
    ensures p.IsBound(b.Items(), r) && r < b.size && found == (kind.Comparable? && p.Matches(b.Items()[r]))
  {
    hide p.Ordered, p.AtMostOne, p.IsBound, p.Below, p.Matches, b.Upper, b.Valid, b.Slot, b.At, Filled, Segment;
    SizeInBounds(b);
    Halves(b);
    ghost var upper, lower := Segment(b.buffer, b.begin, b.Upper()), Segment(b.buffer, 0, b.size - b.Upper());
    HalfOrdered(p, upper, lower);
    var lowHalf, from, n := ChooseHalf(b, p);
    r, found := LowerBound(kind, Segment(b.buffer, from, n), p);
    HalfSearched(p, upper, lower, lowHalf, r);
    r := if from == b.begin then r else r + (|b.buffer| - b.begin);
  }

  // ----- All buckets -----

  ghost predicate AllValid<T>(bs: seq<Bucket<T>>, max: int) {
    forall i :: 0 <= i < |bs| ==> bs[i].Valid(max)
  }

  /** What the manager keeps: every bucket between the first and the last is full. */
  ghost predicate Tiered<T>(bs: seq<Bucket<T>>, max: int) {
    max > 0 && AllValid(bs, max) && forall i :: 0 < i < |bs| - 1 ==> bs[i].size == max
  }

  /** The last element of a part stands right before those of the next. */
  lemma LastOfPart<T>(parts: seq<seq<T>>, b: int)
    requires 0 <= b < |parts| && parts[b] != []
    ensures var n := |Concat(parts[..b + 1])|;
            && |Concat(parts[..b])| < n <= |Concat(parts)| && Concat(parts)[n - 1] == parts[b][|parts[b]| - 1]
            && Concat(parts[..b + 1])[n - 1] == parts[b][|parts[b]| - 1]
  {
    ConcatNext(parts, b);
    ConcatAround(parts, b);
    hide Concat;
  }

  lemma {:induction false} PartsInOrder<T>(parts: seq<seq<T>>, i: int, j: int)
    requires 0 <= i < j < |parts| && forall k :: i < k <= j ==> parts[k] != []
    ensures |Concat(parts[..i + 1])| < |Concat(parts[..j + 1])|
    decreases j
  {
    ConcatNext(parts, j);
    hide Concat;
    if i < j - 1 {
      PartsInOrder(parts, i, j - 1);
    }
  }

  /** `backs` are the last elements of the parts, which are not empty. */
  ghost predicate LastOf<T>(parts: seq<seq<T>>, backs: seq<T>) {
    |parts| == |backs| && forall i :: 0 <= i < |parts| ==> parts[i] != [] && parts[i][|parts[i]| - 1] == backs[i]
  }

  lemma LastOfPartIs<T>(parts: seq<seq<T>>, backs: seq<T>, b: int)
    requires LastOf(parts, backs) && 0 <= b < |parts|
    ensures |parts| == |backs| && parts[b] != [] && parts[b][|parts[b]| - 1] == backs[b]
  {
  }

  /** The last elements of the parts are in order if all elements are. */
  lemma BacksOrdered<T(!new)>(p: Probe<T>, parts: seq<seq<T>>, backs: seq<T>)
    requires LastOf(parts, backs) && p.Ordered(Concat(parts))
    ensures p.Ordered(backs)
    ensures p.AtMostOne(Concat(parts)) ==> p.AtMostOne(backs)
  {
    forall i, j | 0 <= i < j < |backs|
      ensures (p.Below(backs[j]) ==> p.Below(backs[i])) && (p.compare(backs[i]) > 0 ==> p.compare(backs[j]) > 0)
      ensures p.AtMostOne(Concat(parts)) ==> !(p.Matches(backs[i]) && p.Matches(backs[j])) {
      LastOfPart(parts, i);
      LastOfPart(parts, j);
      PartsInOrder(parts, i, j);
      hide Concat;
    }
  }

  /** With the part found by its last element, a bound in it is the bound in all. */
  lemma BoundInPart<T(!new)>(p: Probe<T>, parts: seq<seq<T>>, backs: seq<T>, b: int, r: int, at: int)
    requires LastOf(parts, backs) && p.Ordered(Concat(parts)) && 0 <= b < |parts| && at == |Concat(parts[..b])| + r
    requires p.IsBound(backs, b) && p.IsBound(parts[b], r) && r < |parts[b]|
    ensures var all := Concat(parts);
            p.IsBound(all, at) && at < |all| && all[at] == parts[b][r]
  {
    ConcatAround(parts, b);
    BelowBound(p, backs, b, b);
    if b > 0 {
      BelowBound(p, backs, b, b - 1);
      LastOfPart(parts, b - 1);
    }
    hide Concat, p.IsBound, p.Ordered, p.Below;
    BoundInMiddle(p, Concat(parts[..b]), parts[b], Concat(parts[b + 1..]), r);
  }

  /** Behind the last part, everything is below. */
  lemma BoundAtEnd<T(!new)>(p: Probe<T>, parts: seq<seq<T>>, backs: seq<T>)
    requires LastOf(parts, backs) && p.Ordered(Concat(parts)) && p.IsBound(backs, |backs|)
    ensures p.IsBound(Concat(parts), |Concat(parts)|)
  {
    if parts != [] {
      var all, n := Concat(parts), |parts|;
      BelowBound(p, backs, n, n - 1);
      LastOfPart(parts, n - 1);
      assert parts[..n] == parts;
      hide Concat;
      assert p.Below(all[|all| - 1]);
    }
  }

  lemma PartOfOrdered<T(!new)>(p: Probe<T>, parts: seq<seq<T>>, b: int)
    requires p.Ordered(Concat(parts)) && 0 <= b < |parts|
    ensures p.Ordered(parts[b])
    ensures p.AtMostOne(Concat(parts)) ==> p.AtMostOne(parts[b])
  {
    ConcatAround(parts, b);
    hide Concat;
    PartOrdered(p, Concat(parts[..b]), parts[b], Concat(parts[b + 1..]));
  }

  // ----- Elements by bucket -----

  ghost function Parts<T>(bs: seq<Bucket<T>>, max: int): (parts: seq<seq<T>>)
    requires AllValid(bs, max)
    ensures |parts| == |bs| && forall i :: 0 <= i < |bs| ==> parts[i] == bs[i].Items() && |parts[i]| == bs[i].size > 0
    ensures forall i :: 0 <= i < |bs| ==> parts[i][bs[i].size - 1] == bs[i].back
  {
    seq(|bs|, i requires 0 <= i < |bs| => bs[i].Items())
  }

  /** The elements of all buckets. */
  ghost function Flatten<T>(bs: seq<Bucket<T>>, max: int): seq<T>
    requires AllValid(bs, max)
  {
    Concat(Parts(bs, max))
  }

  function Backs<T>(bs: seq<Bucket<T>>): (s: seq<T>)
    ensures |s| == |bs| && forall i :: 0 <= i < |bs| ==> s[i] == bs[i].back
  {
    seq(|bs|, i requires 0 <= i < |bs| => bs[i].back)
  }

  /** How many elements lie in front of bucket `i`. */
  function Start<T>(bs: seq<Bucket<T>>, max: int, i: int): int
    requires 0 <= i && bs != []
  {
    if i != 0 then bs[0].size + (i - 1) * max else 0
  }

  lemma PartIsBucket<T>(bs: seq<Bucket<T>>, max: int, b: int)
    requires Tiered(bs, max) && 0 <= b < |bs|
    ensures bs[b].Valid(|bs[b].buffer|) && Parts(bs, max)[b] == bs[b].Items() && |bs[b].Items()| == bs[b].size
  {
  }

  lemma StartStep<T>(bs: seq<Bucket<T>>, max: int, b: int)
    requires Tiered(bs, max) && 0 <= b < |bs| - 1
    ensures Start(bs, max, b + 1) == Start(bs, max, b) + bs[b].size
  {
    if b > 0 {
      assert b * max == (b - 1) * max + max;
    }
  }

  lemma ConcatNone<T>(parts: seq<seq<T>>)
    ensures Concat(parts[..0]) == []
  {
  }

  lemma {:induction false} StartIsLength<T>(bs: seq<Bucket<T>>, max: int, b: int)
    requires Tiered(bs, max) && 0 <= b < |bs|
    ensures |Concat(Parts(bs, max)[..b])| == Start(bs, max, b)
  {
    hide Concat, Parts, bs[0].Items;
    var parts := Parts(bs, max);
    if b == 0 {
      ConcatNone(parts);
    } else {
      StartIsLength(bs, max, b - 1);
      ConcatNext(parts, b - 1);
      StartStep(bs, max, b - 1);
    }
  }

  /** Which bucket holds an element. */
  lemma {:induction false} Locate<T>(bs: seq<Bucket<T>>, max: int, pos: int) returns (b: int)
    requires Tiered(bs, max) && 0 <= pos < |Flatten(bs, max)|
    ensures 0 <= b < |bs| && Start(bs, max, b) <= pos < Start(bs, max, b) + bs[b].size
    ensures Flatten(bs, max)[pos] == bs[b].At(pos - Start(bs, max, b))
  {
    var parts := Parts(bs, max);
    b := LocatePart(parts, pos);
    StartIsLength(bs, max, b);
  }

  lemma LocatePart<T>(parts: seq<seq<T>>, pos: int) returns (b: int)
    requires 0 <= pos < |Concat(parts)|
    ensures 0 <= b < |parts| && |Concat(parts[..b])| <= pos < |Concat(parts[..b])| + |parts[b]|
    ensures Concat(parts)[pos] == parts[b][pos - |Concat(parts[..b])|]
  {
    assert parts[..|parts|] == parts && Concat(parts[..0]) == [];
    hide Concat;
    b := |parts|;
    while |Concat(parts[..b])| > pos
      invariant 0 <= b <= |parts|
      invariant b < |parts| ==> pos < |Concat(parts[..b])| + |parts[b]|
      decreases b
    {
      ConcatNext(parts, b - 1);
      b := b - 1;
    }
    ConcatAround(parts, b);
  }

  /** The place of element `j` of bucket `b`, computed from its position in the sequence. */
  lemma AtArithmetic(pos: int, frontSize: int, b: int, max: int, j: nat)
    requires 0 < frontSize <= max && 0 <= b && j < max && (b == 0 ==> j < frontSize)
    requires pos == (if b != 0 then frontSize + (b - 1) * max else 0) + j
    ensures b == 0 <==> pos < frontSize
    ensures (pos + (max - frontSize)) / max == b
    ensures (pos - if pos < frontSize then 0 else frontSize) % max == j
  {
    if b == 0 {
      Divides(pos, 0, j, max);
      Divides(pos + (max - frontSize), 0, pos + (max - frontSize), max);
    } else {
      MulLeq(0, b - 1, max);
      Divides(pos - frontSize, b - 1, j, max);
      assert b * max == (b - 1) * max + max;
      Divides(pos + (max - frontSize), b, j, max);
    }
  }

  // ----- Storing elements -----

  function MakeBucket<T>(s: seq<T>, max: int): (b: Bucket<T>)
    requires 0 < |s| <= max
    ensures b.Valid(max) && b.size == |s| && b.Items() == s
  {
    Bucket(seq(max, i requires 0 <= i < max => if i < |s| then Some(s[i]) else None), 0, |s|, s[|s| - 1])
  }

  /** One way to lay out elements in buckets. */
  function LayOut<T>(s: seq<T>, max: int): seq<Bucket<T>>
    requires max > 0
  {
    if s == [] then []
    else if |s| <= max then [MakeBucket(s, max)]
    else [MakeBucket(s[..max], max)] + LayOut(s[max..], max)
  }

  lemma {:induction false} LayOutTiered<T>(s: seq<T>, max: int)
    requires max > 0
    ensures AllValid(LayOut(s, max), max)
    ensures forall i :: 0 <= i < |LayOut(s, max)| - 1 ==> LayOut(s, max)[i].size == max
  {
    hide MakeBucket;
    if |s| > max {
      LayOutTiered(s[max..], max);
    }
  }

  lemma {:induction false} LayOutKeeps<T>(s: seq<T>, max: int)
    requires max > 0
    ensures AllValid(LayOut(s, max), max) && Flatten(LayOut(s, max), max) == s
  {
    LayOutTiered(s, max);
    hide AllValid, MakeBucket, Parts;
    if s == [] {
      assert LayOut(s, max) == [];
      assert Concat(Parts([], max)) == s by {
        NoParts<T>(max);
      }
    } else if |s| <= max {
      assert LayOut(s, max) == [MakeBucket(s, max)] + [];
      NoParts<T>(max);
      PartsCons(MakeBucket(s, max), [], max);
      assert s + [] == s;
    } else {
      LayOutKeeps(s[max..], max);
      PartsCons(MakeBucket(s[..max], max), LayOut(s[max..], max), max);
      assert s == s[..max] + s[max..];
    }
  }

  lemma NoParts<T>(max: int)
    ensures AllValid<T>([], max) && Concat(Parts<T>([], max)) == []
  {
  }

  lemma PartsCons<T>(b: Bucket<T>, rest: seq<Bucket<T>>, max: int)
    requires b.Valid(max) && AllValid(rest, max)
    ensures AllValid([b] + rest, max) && Concat(Parts([b] + rest, max)) == b.Items() + Concat(Parts(rest, max))
  {
    var parts := Parts([b] + rest, max);
    assert parts[0] == b.Items() && parts[1..] == Parts(rest, max);
  }

  // ----- The container -----

  /** tiered_vector, as far as the sorted containers use it. */
  class TieredVector<T(!new)> {
    const max: int
    var buckets: seq<Bucket<T>>
    var size: int

    ghost predicate Valid()
      reads this
    {
      Tiered(buckets, max) && size == |Flatten(buckets, max)|
    }

    ghost function Elements(): seq<T>
      requires Valid()
      reads this
    {
      Flatten(buckets, max)
    }

    constructor (max: int)
      requires max > 0
      ensures Valid() && Elements() == [] && this.max == max
    {
      this.max := max;
      buckets := [];
      size := 0;
    }

    /** tvector_lower_bound: the two-level search finds the bound in the sequence of all elements. The search
        through the buckets may leave another rest to a linear search than the one in a bucket does. */
    method LowerBound(outer: Kind, kind: Kind, p: Probe<T>) returns (r: int, found: bool)
      requires Valid() && outer.Valid() && kind.Valid() && outer.Alike(kind)
      requires p.Ordered(Elements()) && (kind == Comparable(false) ==> p.AtMostOne(Elements()))
      ensures p.IsBound(Elements(), r)
      ensures found == (kind.Comparable? && r < size && p.Matches(Elements()[r]))
    {
      ghost var parts := Parts(buckets, max);
      var backs := Backs(buckets);
      assert LastOf(parts, backs);
      hide p.Ordered, p.AtMostOne, p.IsBound, p.Below, p.Matches, Tiered, Parts, Concat, LastOf, Kind.Valid;
      BacksOrdered(p, parts, backs);
      var b, onBack := BinarySearch.LowerBound(outer, backs, p);
      BoundRange(p, backs, b);
      if b == |buckets| {
        BoundAtEnd(p, parts, backs);
        return size, false;
      }
      r, found := SearchPart(kind, p, b, parts, backs);
    }

    /** The search in the bucket that the last elements tell. */
    method SearchPart(kind: Kind, p: Probe<T>, b: int, ghost parts: seq<seq<T>>, ghost backs: seq<T>)
      returns (r: int, found: bool)
      requires Valid() && kind.Valid() && parts == Parts(buckets, max) && LastOf(parts, backs)
      requires p.Ordered(Concat(parts)) && (kind == Comparable(false) ==> p.AtMostOne(Concat(parts)))
      requires 0 <= b < |buckets| && p.IsBound(backs, b)
      ensures var all := Concat(parts);
              p.IsBound(all, r) && r < |all| && found == (kind.Comparable? && p.Matches(all[r]))
    {
      hide p.Ordered, p.AtMostOne, p.IsBound, p.Below, p.Matches, Tiered, Parts, Concat, LastOf, Kind.Valid;
      PartOfOrdered(p, parts, b);
      LastOfPartIs(parts, backs, b);
      BelowBound(p, backs, b, b);
      PartIsBucket(buckets, max, b);
      r, found := SearchBucket(kind, buckets[b], p);
      StartIsLength(buckets, max, b);
      var start := if b != 0 then buckets[0].size + (b - 1) * max else 0;
      BoundInPart(p, parts, backs, b, r, r + start);
      r := r + start;
    }

    /** operator[]. */
    method At(pos: int) returns (x: T)
      requires Valid() && 0 <= pos < size
      ensures x == Elements()[pos]
    {
      ghost var b := Locate(buckets, max, pos);
      var frontSize := buckets[0].size;
      AtArithmetic(pos, frontSize, b, max, pos - Start(buckets, max, b));
      var bucket := (pos + (max - frontSize)) / max;
      var index := (pos - if pos < frontSize then 0 else frontSize) % max;
      x := buckets[bucket].At(index);
    }

    method ToSeq() returns (s: seq<T>)
      requires Valid()
      ensures s == Elements()
    {
      s := [];
      while |s| < size
        invariant |s| <= size && s == Elements()[..|s|]
      {
        var x := At(|s|);
        s := s + [x];
      }
    }

    /** Stands for the members that change the container. How they distribute the elements among the
        buckets is the manager's affair. */
    method Store(s: seq<T>)
      requires Valid()
      modifies this
      ensures Valid() && Elements() == s
    {
      LayOutTiered(s, max);
      LayOutKeeps(s, max);
      buckets := LayOut(s, max);
      size := |s|;
    }

    method Emplace(pos: int, x: T)
      requires Valid() && 0 <= pos <= size
      modifies this
      ensures Valid() && Elements() == old(Elements()[..pos]) + [x] + old(Elements()[pos..])
    {
      var s := ToSeq();
      Store(s[..pos] + [x] + s[pos..]);
    }

    method Erase(first: int, last: int)
      requires Valid() && 0 <= first <= last <= size
      modifies this
      ensures Valid() && Elements() == old(Elements()[..first] + Elements()[last..])
    {
      var s := ToSeq();
      Store(s[..first] + s[last..]);
    }
  }

  lemma BoundRange<T(!new)>(p: Probe<T>, s: seq<T>, r: int)
    requires p.IsBound(s, r)
    ensures 0 <= r <= |s|
  {
  }
}
