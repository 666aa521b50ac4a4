/** The double-ended vector of seq/devector.hpp. */
module Devectors {
  import opened Ordering
  import opened Storage
  import opened Wrappers

  /** The argument of an emplacing member: a value of the caller's own, or a const reference to an
      element of the container itself. */
  datatype Arg<T> = Given(value: T) | Element(index: int) {

    ghost predicate Valid(s: seq<T>) {
      Element? ==> 0 <= index < |s|
    }

    /** The value that the caller meant. */
    ghost function Meant(s: seq<T>): T
      requires Valid(s)
    {
      if Given? then value else s[index]
    }
  }

  /** Reads an argument whose index is one into storage: there is nothing to read if the cell holds
      neither a value nor the bytes of one any more. */
  method ReadArg<T>(a: array<Cell<T>>, arg: Arg<T>) returns (v: Option<T>)
    requires arg.Element? ==> 0 <= arg.index < a.Length
    ensures arg.Given? ==> v == Some(arg.value)
    ensures arg.Element? ==> v == if a[arg.index].Live? || a[arg.index].Left? then Some(a[arg.index].value) else None
  {
    if arg.Given? {
      v := Some(arg.value);
    } else if a[arg.index].Live? || a[arg.index].Left? {
      v := Some(a[arg.index].value);
    } else {
      v := None;
    }
  }

  class Devector<T> {
    /** Whether elements are moved by copying their bytes: is_relocatable of the element type. */
    const relocatable: bool
    var data: array<Cell<T>>
    var start: int
    var end: int
    var capacity: int

    /** The elements. */
    ghost var contents: seq<T>

    /** How many storage blocks the allocator has given out and not got back. */
    ghost var blocks: int

    ghost predicate Valid()
      reads this, data
    {
      0 <= start <= end <= capacity == data.Length && end == start + |contents| && Holds(data[..], start, contents)
    }

    /** Storage blocks that the vector cannot reach any more. */
    ghost function Leaked(): int
      reads this
    {
      blocks - Blocks(data.Length)
    }

    constructor (relocatable: bool)
      ensures Valid() && contents == [] && Leaked() == 0 && this.relocatable == relocatable
      ensures fresh(data)
    {
      this.relocatable := relocatable;
      data := new Cell<T>[0](_ => Dead);
      start, end, capacity := 0, 0, 0;
      contents, blocks := [], 0;
    }

    // ----- Storage -----

    method Allocate(n: int) returns (a: array<Cell<T>>)
      requires n >= 0
      modifies this`blocks
      ensures fresh(a) && a.Length == n && Holds(a[..], 0, [])
      ensures blocks == old(blocks) + Blocks(n)
    {
      a := new Cell<T>[n](_ => Dead);
      blocks := blocks + Blocks(n);
    }

    /** Storage may be given back only when no object is left in it. */
    method Deallocate(a: array<Cell<T>>)
      requires Holds(a[..], 0, [])
      modifies this`blocks
      ensures blocks == old(blocks) - Blocks(a.Length)
    {
      blocks := blocks - Blocks(a.Length);
    }

    /** Moves the elements into other storage, which may hold objects around their new place, and gives
        the old storage back. */
    method MoveInto(a: array<Cell<T>>, newStart: int, ghost front: seq<T>, ghost back: seq<T>)
      requires Valid() && a != data && Around(a[..], newStart, |contents|, front, back)
      modifies this, data, a
      ensures data == a && capacity == a.Length && start == newStart && end == newStart + |contents|
      ensures contents == old(contents) && blocks == old(blocks) - Blocks(old(data).Length)
      ensures Holds(a[..], newStart - |front|, front + contents + back)
    {
      ghost var c := a[..];
      CopyDestroyInput(relocatable, data, start, end, a, newStart, contents);
      GapFilled(c, a[..], newStart, front, contents, back);
      Deallocate(data);
      end := newStart + (end - start);
      data := a;
      start := newStart;
      capacity := a.Length;
    }

    /** grow_capacity, with a growth factor of 1.6. */
    function GrowCapacity(): (c: int)
      requires capacity >= 0
      reads this
      ensures c > capacity && c >= 2
      ensures if capacity < 2 then c == 2 else 5 * c <= 8 * capacity < 5 * (c + 1)
    {
      var scaled := capacity * 8 / 5;
      var c := if scaled == capacity then scaled + 1 else scaled;
      if c < 2 then 2 else c
    }

    method Reserve(newCapacity: int)
      requires Valid()
      modifies this, data
      ensures Valid() && contents == old(contents) && Leaked() == old(Leaked()) && (data == old(data) || fresh(data))
      ensures capacity >= newCapacity && capacity >= old(capacity) && start == old(start)
    {
      if newCapacity <= capacity {
        return;
      }
      var a := Allocate(newCapacity);
      MoveInto(a, start, [], []);
      assert [] + contents + [] == contents;
    }

    method ReserveBack(newBackCapacity: int)
      requires Valid() && newBackCapacity >= 0
      modifies this, data
      ensures Valid() && contents == old(contents) && Leaked() == old(Leaked()) && (data == old(data) || fresh(data))
      ensures capacity - end >= newBackCapacity
    {
      var size := end - start;
      if capacity - end >= newBackCapacity {
        return;
      }
      var requiredCapacity := newBackCapacity + size;
      if requiredCapacity <= capacity {
        var newStart := capacity - requiredCapacity;
        MoveDestroyInput(relocatable, data, start, end, newStart, contents);
        start := newStart;
        end := start + size;
      } else {
        var a := Allocate(requiredCapacity);
        MoveInto(a, 0, [], []);
        assert [] + contents + [] == contents;
      }
    }

    method ReserveFront(newFrontCapacity: int)
      requires Valid() && newFrontCapacity >= 0
      modifies this, data
      ensures Valid() && contents == old(contents) && Leaked() == old(Leaked()) && (data == old(data) || fresh(data))
      ensures start >= newFrontCapacity
    {
      var size := end - start;
      if start >= newFrontCapacity {
        return;
      }
      var requiredCapacity := newFrontCapacity + size;
      if requiredCapacity <= capacity {
        var newStart := newFrontCapacity;
        MoveDestroyInput(relocatable, data, start, end, newStart, contents);
        start := newStart;
        end := start + size;
      } else {
        var a := Allocate(requiredCapacity);
        MoveInto(a, newFrontCapacity, [], []);
        assert [] + contents + [] == contents;
      }
    }

    method ShrinkToFit()
      requires Valid()
      modifies this, data
      ensures Valid() && contents == old(contents) && Leaked() == old(Leaked()) && (data == old(data) || fresh(data))
      ensures capacity == |contents|
    {
      var size := end - start;
      if size == capacity {
        return;
      }
      var a := Allocate(size);
      MoveInto(a, 0, [], []);
      assert [] + contents + [] == contents;
    }

    // ----- Resizing -----

    method Resize(newSize: int, value: T)
      requires Valid() && newSize >= 0
      modifies this, data
      ensures Valid() && Leaked() == old(Leaked()) && (data == old(data) || fresh(data))
      ensures var s := old(contents);
              contents == if newSize <= |s| then s[..newSize] else s + Repeat(newSize - |s|, value)
    {
      var size := end - start;
      if size == newSize {
        return;
      }
      ghost var c, s := data[..], contents;
      if newSize > size {
        var remaining := capacity - end;
        if remaining >= newSize - size {
          ConstructRange(data, end, end + (newSize - size), value);
          end := end + (newSize - size);
          Extended(c, data[..], start, s, 0, newSize - size, value);
          assert Repeat(0, value) + s == s;
          contents := s + Repeat(newSize - size, value);
        } else {
          ReallocateBack(newSize, value);
        }
      } else {
        DestroyRange(data, start + newSize, end);
        end := start + newSize;
        contents := s[..newSize];
        Shrunk(c, data[..], start, s, 0, newSize);
      }
    }

    /** The branch of resize that takes new storage. */
    method ReallocateBack(newSize: int, value: T)
      requires Valid() && newSize > |contents|
      modifies this, data
      ensures Valid() && Leaked() == old(Leaked()) && fresh(data)
      ensures contents == old(contents) + Repeat(newSize - old(|contents|), value)
    {
      var size := end - start;
      ghost var c, s := data[..], contents;
      hide Holds, Around;
      var a := Allocate(newSize);
      ghost var b := a[..];
      var newStart := (newSize - newSize) / 2;
      EmptyStorage(b);
      ConstructRange(a, newStart + size, newStart + newSize, value);
      assert data[..] == c;
      BesideGap(b, a[..], newStart + size, newStart + newSize, value, newStart, |s|);
      assert Repeat(newStart + newSize - (newStart + size), value) == Repeat(newSize - size, value);
      MoveInto(a, newStart, [], Repeat(newSize - size, value));
      assert [] + s == s;
      end := newStart + newSize;
      contents := s + Repeat(newSize - size, value);
    }

    /** resize_front. When it takes new storage it does not give the old one back. */
    method ResizeFront(newSize: int, value: T)
      requires Valid() && newSize >= 0
      modifies this, data
      ensures Valid() && (data == old(data) || fresh(data))
      ensures var s := old(contents);
              contents == if newSize <= |s| then s[|s| - newSize..] else Repeat(newSize - |s|, value) + s
      ensures Leaked() == old(Leaked()) + if newSize - old(|contents|) > old(start) then Blocks(old(data).Length) else 0
    {
      var size := end - start;
      if size == newSize {
        return;
      }
      ghost var c, s := data[..], contents;
      if newSize > size {
        var remaining := start;
        if remaining >= newSize - size {
          var newStart := start - (newSize - size);
          ConstructRange(data, newStart, start, value);
          Extended(c, data[..], start, s, newSize - size, 0, value);
          start := newStart;
          contents := Repeat(newSize - size, value) + s;
          assert contents + Repeat(0, value) == contents;
        } else {
          ReallocateFront(newSize, value);
        }
      } else {
        var newStart := start + (size - newSize);
        DestroyRange(data, start, newStart);
        Shrunk(c, data[..], start, s, size - newSize, size);
        start := newStart;
        contents := s[size - newSize..];
      }
    }

    /** The branch of resize_front that takes new storage. */
    method ReallocateFront(newSize: int, value: T)
      requires Valid() && newSize > |contents|
      modifies this, data
      ensures Valid() && Leaked() == old(Leaked()) + Blocks(old(data).Length) && fresh(data)
      ensures contents == Repeat(newSize - old(|contents|), value) + old(contents)
    {
      var size := end - start;
      ghost var c, s := data[..], contents;
      hide Holds, Around;
      var a := Allocate(newSize);
      ghost var b := a[..];
      var newStart := (newSize - newSize) / 2;
      EmptyStorage(b);
      ConstructRange(a, 0, newSize - size, value);
      assert data[..] == c;
      BesideGap(b, a[..], 0, newSize - size, value, newSize - size, size);
      GapIsEmpty(a[..], newSize - size, size, Repeat(newSize - size, value), []);
      b := a[..];
      CopyDestroyInput(relocatable, data, start, end, a, newStart + (newSize - size), s);
      GapFilled(b, a[..], newSize - size, Repeat(newSize - size, value), s, []);
      data := a;
      start := newStart;
      end := newStart + newSize;
      capacity := newSize;
      contents := Repeat(newSize - size, value) + s;
      assert contents + [] == contents;
    }

    // ----- Both ends -----

    /** What an argument denotes whose index is a place in the storage. */
    ghost function Denoted(arg: Arg<T>): T
      requires arg.Element? ==> start <= arg.index < start + |contents|
      reads this
    {
      if arg.Given? then arg.value else contents[arg.index - start]
    }

    /** grow_back: called when there is no room at the back; it makes some and constructs the new
        element there. The argument's index is a place in the storage. It fails if the argument is an
        element, and this is destroyed before it is read. */
    method GrowBack(arg: Arg<T>) returns (ok: bool)
      requires Valid() && end == capacity && (arg.Element? ==> start <= arg.index < end)
      modifies this, data
      ensures contents == old(contents) && Leaked() == old(Leaked()) && (data == old(data) || fresh(data))
      ensures ok == !(arg.Element? && !relocatable && old(start) > |contents|)
      ensures !ok ==> Valid()
      ensures ok ==> capacity == data.Length && 0 <= start && end == start + |contents| < capacity
      ensures ok ==> Holds(data[..], start, contents + [old(Denoted(arg))])
    {
      var size := end - start;
      if start > size {
        ok := SlideToFront(arg);
        return;
      }
      ReallocateForBack(arg);
      return true;
    }

    /** The branch of grow_back that takes new storage; it keeps the position of the first element. */
    method ReallocateForBack(arg: Arg<T>)
      requires Valid() && end == capacity && start <= |contents| && (arg.Element? ==> start <= arg.index < end)
      modifies this, data
      ensures contents == old(contents) && Leaked() == old(Leaked()) && fresh(data)
      ensures capacity == data.Length && start == old(start) && end == start + |contents| < capacity
      ensures Holds(data[..], start, contents + [old(Denoted(arg))])
    {
      hide Holds, Around, GrowCapacity;
      var size := end - start;
      var newCapacity := GrowCapacity();
      ghost var c := data[..];
      var a := Allocate(newCapacity);
      assert data[..] == c;
      var newStart := start;
      if newStart + size == newCapacity {
        newStart := newStart - 1;
      }
      if arg.Element? {
        ElementAt(data[..], start, contents, arg.index);
      }
      var v := ReadArg(data, arg);
      ConstructBeside(a, newStart + size, v.value, newStart, |contents|);
      assert data[..] == c;
      MoveInto(a, newStart, [], [v.value]);
      assert [] + contents == contents;
    }

    /** The branch of grow_back that uses the room at the front. */
    method SlideToFront(arg: Arg<T>) returns (ok: bool)
      requires Valid() && start > |contents| && (arg.Element? ==> start <= arg.index < end)
      modifies this, data
      ensures contents == old(contents) && blocks == old(blocks) && data == old(data) && capacity == old(capacity)
      ensures start == 0 && end == |contents| && ok == (arg.Given? || relocatable)
      ensures Holds(data[..], start, contents + if ok then [old(Denoted(arg))] else [])
    {
      hide Holds;
      var size := end - start;
      CopyDestroyInput(relocatable, data, start, end, data, 0, contents);
      start := 0;
      end := size;
      var v := ReadArg(data, arg);
      if v.None? {
        assert contents + [] == contents;
        return false;
      }
      ConstructAtEnd(data, end, v.value, start, contents);
      return true;
    }

    /** grow_front: the mirror image of grow_back. */
    method GrowFront(arg: Arg<T>) returns (ok: bool)
      requires Valid() && start == 0 && (arg.Element? ==> start <= arg.index < end)
      modifies this, data
      ensures contents == old(contents) && Leaked() == old(Leaked()) && (data == old(data) || fresh(data))
      ensures ok == !(arg.Element? && !relocatable && old(capacity) - |contents| > |contents|)
      ensures !ok ==> Valid()
      ensures ok ==> capacity == data.Length && 0 < start && end == start + |contents|
      ensures ok ==> Holds(data[..], start - 1, [old(Denoted(arg))] + contents)
    {
      var size := end - start;
      if capacity - size > size {
        ok := SlideToBack(arg);
        return;
      }
      ReallocateForFront(arg);
      return true;
    }

    /** The branch of grow_front that takes new storage; it keeps the distance of the elements to the end. */
    method ReallocateForFront(arg: Arg<T>)
      requires Valid() && start == 0 && capacity - |contents| <= |contents|
               && (arg.Element? ==> start <= arg.index < end)
      modifies this, data
      ensures contents == old(contents) && Leaked() == old(Leaked()) && fresh(data)
      ensures capacity == data.Length && 0 < start == capacity - old(capacity) && end == start + |contents|
      ensures Holds(data[..], start - 1, [old(Denoted(arg))] + contents)
    {
      hide Holds, Around, GrowCapacity;
      var size := end - start;
      var newCapacity := GrowCapacity();
      ghost var c := data[..];
      var a := Allocate(newCapacity);
      assert data[..] == c;
      var newStart := newCapacity - (capacity - start);
      if newStart == 0 {
        newStart := newStart + 1;
      }
      if arg.Element? {
        ElementAt(data[..], start, contents, arg.index);
      }
      var v := ReadArg(data, arg);
      ConstructBeside(a, newStart - 1, v.value, newStart, |contents|);
      assert data[..] == c;
      MoveInto(a, newStart, [v.value], []);
      assert [v.value] + contents + [] == [v.value] + contents;
    }

    /** The branch of grow_front that uses the room at the back. */
    method SlideToBack(arg: Arg<T>) returns (ok: bool)
      requires Valid() && start == 0 && capacity - |contents| > |contents|
               && (arg.Element? ==> start <= arg.index < end)
      modifies this, data
      ensures contents == old(contents) && blocks == old(blocks) && data == old(data) && capacity == old(capacity)
      ensures start == capacity - |contents| && end == capacity && ok == (arg.Given? || relocatable)
      ensures if ok then Holds(data[..], start - 1, [old(Denoted(arg))] + contents)
              else Holds(data[..], start, contents)
    {
      hide Holds;
      var size := end - start;
      CopyDestroyInput(relocatable, data, start, end, data, capacity - size, contents);
      start := capacity - size;
      end := capacity;
      var v := ReadArg(data, arg);
      if v.None? {
        return false;
      }
      ConstructAtEnd(data, start - 1, v.value, start, contents);
      return true;
    }

    /** emplace_back (push_back). It fails only if its argument is an element that is destroyed before
        it is read, and stops there. */
    method EmplaceBack(arg: Arg<T>) returns (ok: bool)
      requires Valid() && arg.Valid(contents)
      modifies this, data
      ensures Valid() && Leaked() == old(Leaked()) && (data == old(data) || fresh(data))
      ensures ok == !(arg.Element? && !relocatable && old(end) == old(capacity) && old(start) > old(|contents|))
      ensures contents == if ok then old(contents) + [arg.Meant(old(contents))] else old(contents)
    {
      var place := if arg.Element? then Element(start + arg.index) else arg;
      ghost var s := contents;
      if end == capacity {
        ok := GrowBack(place);
        if !ok {
          return;
        }
      } else {
        var v := ReadArg(data, place);
        Construct(data, end, v.value);
      }
      end := end + 1;
      contents := contents + [arg.Meant(contents)];
      ok := true;
    }

    /** emplace_front (push_front). */
    method EmplaceFront(arg: Arg<T>) returns (ok: bool)
      requires Valid() && arg.Valid(contents)
      modifies this, data
      ensures Valid() && Leaked() == old(Leaked()) && (data == old(data) || fresh(data))
      ensures ok == !(arg.Element? && !relocatable && old(start) == 0
                      && old(capacity) - old(|contents|) > old(|contents|))
      ensures contents == if ok then [arg.Meant(old(contents))] + old(contents) else old(contents)
    {
      var place := if arg.Element? then Element(start + arg.index) else arg;
      if start == 0 {
        ok := GrowFront(place);
        if !ok {
          return;
        }
      } else {
        var v := ReadArg(data, place);
        Construct(data, start - 1, v.value);
      }
      start := start - 1;
      contents := [arg.Meant(contents)] + contents;
      ok := true;
    }

    method PopBack()
      requires Valid() && contents != []
      modifies this, data
      ensures Valid() && data == old(data) && Leaked() == old(Leaked())
      ensures contents == old(contents[..|contents| - 1])
    {
      end := end - 1;
      Destroy(data, end);
      contents := contents[..|contents| - 1];
    }

    method PopFront()
      requires Valid() && contents != []
      modifies this, data
      ensures Valid() && data == old(data) && Leaked() == old(Leaked())
      ensures contents == old(contents[1..])
      ensures start == old(start) + 1 && end == old(end) && capacity == old(capacity)
    {
      Destroy(data, start);
      start := start + 1;
      contents := contents[1..];
    }

    // ----- In the middle -----

    /** emplace (insert of a value). The documentation lets the argument refer to an element. That fails
        only where emplace_back fails. */
    method Emplace(pos: int, arg: Arg<T>, default: T) returns (ok: bool, r: int)
      requires Valid() && 0 <= pos <= |contents| && arg.Valid(contents)
      modifies this, data
      ensures Valid() && Leaked() == old(Leaked()) && (data == old(data) || fresh(data))
      ensures ok == !(arg.Element? && !relocatable && pos >= old(|contents|) / 2
                      && old(end) == old(capacity) && old(start) > old(|contents|))
      ensures var s := old(contents);
              contents == if ok then s[..pos] + [arg.Meant(s)] + s[pos..] else s
      ensures r == pos
    {
      r := pos;
      if pos < (end - start) / 2 {
        EmplaceLeft(pos, arg, default);
        return true, pos;
      }
      ghost var s := contents;
      ok := EmplaceBack(arg);
      if !ok {
        return;
      }
      RotateElements(data, start, pos, (end - start) - 1, end - start, contents);
      AtEnd(s, arg.Meant(s), pos);
      contents := s[..pos] + [arg.Meant(s)] + s[pos..];
    }

    /** The branch of emplace for the first half of the elements. */
    method EmplaceLeft(pos: int, arg: Arg<T>, default: T)
      requires Valid() && 0 <= pos <= |contents| && arg.Valid(contents)
      modifies this, data
      ensures Valid() && Leaked() == old(Leaked()) && (data == old(data) || fresh(data))
      ensures var s := old(contents);
              contents == s[..pos] + [arg.Meant(s)] + s[pos..]
    {
      ghost var s := contents;
      var tmp := ReadArg(data, if arg.Element? then Element(start + arg.index) else arg);
      var pushed := EmplaceFront(Given(default));
      InsertFromLeft(relocatable, data, start, pos, tmp.value, default, s);
      contents := s[..pos] + [tmp.value] + s[pos..];
    }

    /** insert of a range that does not belong to the container. */
    method InsertRange(pos: int, items: seq<T>, randomAccess: bool) returns (r: int)
      requires Valid() && 0 <= pos <= |contents|
      modifies this, data
      ensures Valid() && Leaked() == old(Leaked()) && (data == old(data) || fresh(data))
      ensures contents == old(contents[..pos]) + items + old(contents[pos..])
      ensures r == pos
    {
      r := pos;
      if |items| == 0 {
        assert contents == contents[..pos] + [] + contents[pos..];
      } else if pos <= (end - start) / 2 {
        InsertAtFront(pos, items, randomAccess);
      } else {
        InsertAtBack(pos, items, randomAccess);
      }
    }

    /** The branch of insert that pushes to the front. */
    method InsertAtFront(pos: int, items: seq<T>, randomAccess: bool)
      requires Valid() && 0 <= pos <= |contents|
      modifies this, data
      ensures Valid() && Leaked() == old(Leaked()) && (data == old(data) || fresh(data))
      ensures contents == old(contents[..pos]) + items + old(contents[pos..])
    {
      hide Holds;
      ghost var s := contents;
      var oldSize := end - start;
      if randomAccess {
        ReserveFront(|items|);
      }
      PushFrontAll(items);
      var num := (end - start) - oldSize;
      TurnedInFront(s, items);
      InFront(s, items, pos);
      ReverseElements(data, start, num, contents);
      RotateElements(data, start, 0, num, num + pos, items + s);
      contents := s[..pos] + items + s[pos..];
    }

    /** The branch of insert that pushes to the back. */
    method InsertAtBack(pos: int, items: seq<T>, randomAccess: bool)
      requires Valid() && 0 <= pos <= |contents|
      modifies this, data
      ensures Valid() && Leaked() == old(Leaked()) && (data == old(data) || fresh(data))
      ensures contents == old(contents[..pos]) + items + old(contents[pos..])
    {
      hide Holds;
      ghost var s := contents;
      var oldSize := end - start;
      if randomAccess {
        ReserveBack(|items|);
      }
      PushBackAll(items);
      Behind(s, items, pos);
      RotateElements(data, start, pos, oldSize, end - start, contents);
      contents := s[..pos] + items + s[pos..];
    }

    method PushFrontAll(items: seq<T>)
      requires Valid()
      modifies this, data
      ensures Valid() && Leaked() == old(Leaked()) && (data == old(data) || fresh(data))
      ensures contents == Reversed(items) + old(contents)
    {
      hide Holds, Reversed, Leaked;
      var k := 0;
      ghost var s, front := contents, [];
      NoneReversed(items);
      while k < |items|
        invariant 0 <= k <= |items| && front == Reversed(items[..k])
        invariant Valid() && Leaked() == old(Leaked()) && (data == old(data) || fresh(data))
        invariant contents == front + s
      {
        OneMoreReversed(items, k);
        var pushed := EmplaceFront(Given(items[k]));
        MoreInFront(items[k], front, s);
        front := [items[k]] + front;
        k := k + 1;
      }
      assert items[..k] == items;
    }

    method PushBackAll(items: seq<T>)
      requires Valid()
      modifies this, data
      ensures Valid() && Leaked() == old(Leaked()) && (data == old(data) || fresh(data))
      ensures contents == old(contents) + items
    {
      hide Holds, Leaked;
      var k := 0;
      while k < |items|
        invariant 0 <= k <= |items|
        invariant Valid() && Leaked() == old(Leaked()) && (data == old(data) || fresh(data))
        invariant contents == old(contents) + items[..k]
      {
        var pushed := EmplaceBack(Given(items[k]));
        assert items[..k + 1] == items[..k] + [items[k]];
        k := k + 1;
      }
      assert items[..k] == items;
    }

    /** erase of a range: the shorter side moves over the hole, and what it leaves is popped. */
    method EraseRange(first: int, last: int) returns (r: int)
      requires Valid() && 0 <= first <= last <= |contents|
      modifies this, data
      ensures Valid() && Leaked() == old(Leaked()) && data == old(data)
      ensures contents == old(contents[..first] + contents[last..]) && r == first
    {
      r := first;
      if first == last {
        assert contents == contents[..first] + contents[last..];
        return;
      }
      var count := last - first;
      ghost var s := contents;
      if first < (end - start) - last {
        CloseFromLeft(relocatable, data, start, first, last, s);
        start := start + count;
      } else {
        CloseFromRight(relocatable, data, start, first, last, end, s);
        end := end - count;
      }
      contents := s[..first] + s[last..];
    }
  }

  /** A vector of elements that are not relocatable whose last push_back, of an element of its own,
      reads a destroyed object. */
  method OwnElementLost<T>(x: T) returns (v: Devector<T>, ok: bool)
    ensures fresh(v) && v.Valid() && !v.relocatable && v.contents == [x] && !ok
  {
    v, ok := PushOwnElement(false, x);
  }

  /** The same vector with elements whose bytes are copied. */
  method OwnElementKept<T>(x: T) returns (v: Devector<T>, ok: bool)
    ensures fresh(v) && v.Valid() && v.relocatable && v.contents == [x, x] && ok
  {
    v, ok := PushOwnElement(true, x);
  }

  method PushOwnElement<T>(relocatable: bool, x: T) returns (v: Devector<T>, ok: bool)
    ensures fresh(v) && v.Valid() && v.relocatable == relocatable == ok
    ensures v.contents == if ok then [x, x] else [x]
  {
    v := new Devector(relocatable);
    v.PushBackAll([x, x, x]);
    v.ShrinkToFit();
    v.PopFront();
    v.PopFront();
    ok := v.EmplaceBack(Element(0));
  }

  /** A vector that has lost a storage block. */
  method StorageLost<T>(x: T) returns (v: Devector<T>)
    ensures fresh(v) && v.Valid() && v.contents == [x, x] && v.Leaked() == 1
  {
    v := new Devector(false);
    v.PushBackAll([x]);
    v.ShrinkToFit();
    v.ResizeFront(2, x);
  }

  lemma NoneReversed<T>(items: seq<T>)
    ensures Reversed(items[..0]) == []
  {
  }

  lemma MoreInFront<T>(x: T, front: seq<T>, s: seq<T>)
    ensures [x] + (front + s) == [x] + front + s
  {
  }

  lemma OneMoreReversed<T>(items: seq<T>, k: int)
    requires 0 <= k < |items|
    ensures Reversed(items[..k + 1]) == [items[k]] + Reversed(items[..k])
  {
  }

  lemma TurnedInFront<T>(s: seq<T>, items: seq<T>)
    ensures var (all, n) := (Reversed(items) + s, |items|);
            Reversed(all[..n]) + all[n..] == items + s
  {
    assert (Reversed(items) + s)[..|items|] == Reversed(items);
    assert Reversed(Reversed(items)) == items;
  }

  lemma InFront<T>(s: seq<T>, items: seq<T>, pos: int)
    requires 0 <= pos <= |s|
    ensures var (all, n) := (items + s, |items|);
            all[..0] + all[n..n + pos] + all[0..n] + all[n + pos..] == s[..pos] + items + s[pos..]
  {
    assert s == s[..pos] + s[pos..];
    Exchanged(items, s[..pos], s[pos..], items + s);
  }

  lemma Exchanged<T>(x: seq<T>, y: seq<T>, z: seq<T>, all: seq<T>)
    requires all == x + (y + z)
    ensures all[|x|..|x| + |y|] == y && all[..0] == [] && all[0..|x|] == x && all[|x| + |y|..] == z
  {
  }

  lemma Behind<T>(s: seq<T>, items: seq<T>, pos: int)
    requires 0 <= pos <= |s|
    ensures var all := s + items;
            all[..pos] + all[|s|..|s| + |items|] + all[pos..|s|] + all[|s| + |items|..] == s[..pos] + items + s[pos..]
  {
  }

  lemma AtEnd<T>(s: seq<T>, v: T, pos: int)
    requires 0 <= pos <= |s|
    ensures (s + [v])[..pos] + (s + [v])[|s|..|s| + 1] + (s + [v])[pos..|s|] + (s + [v])[|s| + 1..]
         == s[..pos] + [v] + s[pos..]
  {
    var t := s + [v];
    assert t[..pos] == s[..pos];
    assert t[|s|..|s| + 1] == [v];
    assert t[pos..|s|] == s[pos..];
    assert t[|s| + 1..] == [];
  }

  /** An allocator gives no block for nothing. */
  ghost function Blocks(n: int): int {
    if n > 0 then 1 else 0
  }
}
