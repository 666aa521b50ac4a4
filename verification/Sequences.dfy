/** Sequences that are made of parts. */
module Sequences {

  ghost function Concat<T>(parts: seq<seq<T>>): seq<T> {
    if parts == [] then [] else parts[0] + Concat(parts[1..])
  }

  lemma {:induction false} ConcatSplit<T>(parts: seq<seq<T>>, b: int)
    requires 0 <= b <= |parts|
    ensures Concat(parts) == Concat(parts[..b]) + Concat(parts[b..])
    decreases b
  {
    if b == 0 {
      assert parts[..0] == [] && parts[0..] == parts;
    } else {
      var rest := parts[1..];
      ConcatSplit(rest, b - 1);
      assert rest[..b - 1] == parts[..b][1..] && rest[b - 1..] == parts[b..];
    }
  }

  /** The elements in front of a part, in it and behind it. */
  lemma ConcatAround<T>(parts: seq<seq<T>>, b: int)
    requires 0 <= b < |parts|
    ensures Concat(parts) == Concat(parts[..b]) + parts[b] + Concat(parts[b + 1..])
  {
    ConcatSplit(parts, b);
    var front, part, back := Concat(parts[..b]), parts[b], Concat(parts[b + 1..]);
    assert Concat(parts[b..]) == part + back by {
      assert parts[b..][0] == part && parts[b..][1..] == parts[b + 1..];
    }
    assert front + (part + back) == front + part + back;
  }

  lemma ConcatNext<T>(parts: seq<seq<T>>, b: int)
    requires 0 <= b < |parts|
    ensures Concat(parts[..b + 1]) == Concat(parts[..b]) + parts[b]
  {
    ConcatSplit(parts[..b + 1], b);
    assert parts[..b + 1][..b] == parts[..b] && parts[..b + 1][b..] == [parts[b]];
  }
}
