/** The ring buffer under every queue of the management layer (cpp/circ_array.hpp), proved against
    plain sequences. */
module CircArray {

  datatype RC = Success | NoSpaceError | BufferEmptyError

  datatype Result<T> = Value(value: T) | InvalidIndexException

  // ---------- What the operations do to the sequence held ----------

  ghost function PushedBack<T>(q: seq<T>, capacity: nat, x: T, overwrite: bool): seq<T> {
    if |q| < capacity then q + [x] else if overwrite && q != [] then q[1..] + [x] else q
  }

  ghost function PushedFront<T>(q: seq<T>, capacity: nat, x: T, overwrite: bool): seq<T> {
    if |q| < capacity then [x] + q else if overwrite && q != [] then [x] + q[..|q| - 1] else q
  }

  ghost function Removed<T>(q: seq<T>, i: nat): seq<T>
    requires i < |q|
  {
    q[..i] + q[i + 1..]
  }

  /** The buffer after a run of push_backs. */
  ghost function PushedAll<T>(q: seq<T>, capacity: nat, xs: seq<T>, overwrite: bool): seq<T>
    decreases |xs|
  {
    if xs == [] then q
    else PushedAll(PushedBack(q, capacity, xs[0], overwrite), capacity, xs[1..], overwrite)
  }

  /** The buffer after a run of push_fronts. */
  ghost function PushedAllFront<T>(q: seq<T>, capacity: nat, xs: seq<T>, overwrite: bool): seq<T>
    decreases |xs|
  {
    if xs == [] then q
    else PushedAllFront(PushedFront(q, capacity, xs[0], overwrite), capacity, xs[1..], overwrite)
  }

  ghost function LastOf<T>(s: seq<T>, n: nat): seq<T> {
    if |s| <= n then s else s[|s| - n..]
  }

  /** A run of overwriting push_backs leaves the last `capacity` elements of all that was there and
      all that was pushed. */
  lemma {:induction false} OverwritingKeepsTheLast<T>(q: seq<T>, capacity: nat, xs: seq<T>)
    requires |q| <= capacity && capacity >= 1
    ensures PushedAll(q, capacity, xs, true) == LastOf(q + xs, capacity)
    decreases |xs|
  {
    if xs == [] {
      assert q + xs == q;
    } else {
      var next := PushedBack(q, capacity, xs[0], true);
      OverwritingKeepsTheLast(next, capacity, xs[1..]);
      if |q| < capacity {
        assert next + xs[1..] == q + xs;
      } else {
        assert next + xs[1..] == (q + xs)[1..];
        LastOfTail(q + xs, capacity);
      }
    }
  }

  lemma LastOfTail<T>(s: seq<T>, capacity: nat)
    requires |s| > capacity
    ensures LastOf(s[1..], capacity) == LastOf(s, capacity)
  {
    assert s[1..][|s| - 1 - capacity..] == s[|s| - capacity..];
  }

  ghost function FirstOf<T>(s: seq<T>, n: nat): seq<T> {
    if |s| <= n then s else s[..n]
  }

  ghost function Reversed<T>(s: seq<T>): (r: seq<T>)
    ensures |r| == |s| && forall i :: 0 <= i < |s| ==> r[i] == s[|s| - 1 - i]
  {
    seq(|s|, i requires 0 <= i < |s| => s[|s| - 1 - i])
  }

  /** A run of push_backs that refuse when full leaves the first `capacity` elements of all that was
      there and all that was pushed: nothing accepted is lost, and what is refused leaves no trace. */
  lemma {:induction false} RefusingKeepsTheFirst<T>(q: seq<T>, capacity: nat, xs: seq<T>)
    requires |q| <= capacity
    ensures PushedAll(q, capacity, xs, false) == FirstOf(q + xs, capacity)
    decreases |xs|
  {
    if xs == [] {
      assert q + xs == q;
    } else {
      var next := PushedBack(q, capacity, xs[0], false);
      RefusingKeepsTheFirst(next, capacity, xs[1..]);
      if |q| < capacity {
        assert next + xs[1..] == q + xs;
      } else {
        assert (q + xs)[..capacity] == q == (q + xs[1..])[..capacity];
      }
    }
  }

  /** A run of overwriting push_fronts leaves the first `capacity` of the elements pushed, the last one
      in front, followed by those that were there. */
  lemma {:induction false} OverwritingFrontKeepsTheFirst<T>(q: seq<T>, capacity: nat, xs: seq<T>)
    requires |q| <= capacity && capacity >= 1
    ensures PushedAllFront(q, capacity, xs, true) == FirstOf(Reversed(xs) + q, capacity)
    decreases |xs|
  {
    if xs == [] {
      assert Reversed(xs) + q == q;
    } else {
      var next := PushedFront(q, capacity, xs[0], true);
      OverwritingFrontKeepsTheFirst(next, capacity, xs[1..]);
      ReversedStep(xs, q);
      var all := Reversed(xs[1..]) + ([xs[0]] + q);
      if |q| < capacity {
        assert next == [xs[0]] + q;
      } else {
        assert Reversed(xs[1..]) + next == all[..|all| - 1];
        assert FirstOf(all[..|all| - 1], capacity) == FirstOf(all, capacity);
      }
    }
  }

  /** Refusing push_fronts leave the first elements pushed that there was room for, in front of q. */
  lemma {:induction false} RefusingFrontKeepsTheLast<T>(q: seq<T>, capacity: nat, xs: seq<T>)
    requires |q| <= capacity
    ensures PushedAllFront(q, capacity, xs, false) == LastOf(Reversed(xs) + q, capacity)
    decreases |xs|
  {
    if xs == [] {
      assert Reversed(xs) + q == q;
    } else {
      var next := PushedFront(q, capacity, xs[0], false);
      RefusingFrontKeepsTheLast(next, capacity, xs[1..]);
      ReversedStep(xs, q);
      if |q| < capacity {
        assert next == [xs[0]] + q;
      } else {
        LastIsEnd(Reversed(xs[1..]), q);
        LastIsEnd(Reversed(xs), q);
      }
    }
  }

  lemma LastIsEnd<T>(s: seq<T>, q: seq<T>)
    ensures LastOf(s + q, |q|) == q
  {
  }

  lemma ReversedStep<T>(xs: seq<T>, q: seq<T>)
    requires xs != []
    ensures Reversed(xs) + q == Reversed(xs[1..]) + ([xs[0]] + q)
  {
    assert Reversed(xs) == Reversed(xs[1..]) + [xs[0]];
  }

  // ---------- Places in the array ----------

  function Slot(start: nat, i: nat, capacity: nat): (s: nat)
    requires capacity > 0
    ensures s < capacity
  {
    (start + i) % capacity
  }

  lemma SlotIs(start: nat, i: nat, capacity: nat)
    requires start < capacity && i <= capacity
    ensures Slot(start, i, capacity) == if start + i < capacity then start + i else start + i - capacity
  {
    var x := start + i;
    var q := x / capacity;
    assert x == q * capacity + x % capacity;
    assert q >= 2 ==> q * capacity >= 2 * capacity;
    assert q == 0 || q == 1;
  }

  /** The elements held: size places from start on, around the end of the array. */
  ghost function View<T>(a: seq<T>, start: nat, size: nat): (q: seq<T>)
    requires size <= |a| && (|a| > 0 || size == 0)
    ensures |q| == size && forall i :: 0 <= i < size ==> q[i] == a[Slot(start, i, |a|)]
  {
    seq(size, i requires 0 <= i < size => a[Slot(start, i, |a|)])
  }

  /** Writing at the i-th place changes the i-th element only, if it is held at all. */
  lemma ViewWrite<T>(a: seq<T>, start: nat, size: nat, i: nat, x: T)
    requires start < |a| && size <= |a| && i < |a|
    ensures i < size ==> View(a[Slot(start, i, |a|) := x], start, size) == View(a, start, size)[i := x]
    ensures i == size ==> View(a[Slot(start, i, |a|) := x], start, size + 1) == View(a, start, size) + [x]
  {
    hide Slot;
    SlotIs(start, i, |a|);
    forall j | 0 <= j < size
      ensures j != i ==> Slot(start, j, |a|) != Slot(start, i, |a|)
    {
      SlotIs(start, j, |a|);
    }
  }

  lemma ViewShorter<T>(a: seq<T>, start: nat, size: nat)
    requires start < |a| && 0 < size <= |a|
    ensures View(a, start, size - 1) == View(a, start, size)[..size - 1]
    ensures View(a, Slot(start, 1, |a|), size - 1) == View(a, start, size)[1..]
  {
    hide Slot;
    SlotIs(start, 1, |a|);
    forall j | 0 <= j < size - 1
      ensures Slot(Slot(start, 1, |a|), j, |a|) == Slot(start, j + 1, |a|)
    {
      SlotIs(Slot(start, 1, |a|), j, |a|);
      SlotIs(start, j + 1, |a|);
    }
  }

  lemma ViewPrepend<T>(a: seq<T>, start: nat, size: nat, x: T)
    requires start < |a| && size < |a|
    ensures var before := if start == 0 then |a| - 1 else start - 1;
            View(a[before := x], before, size + 1) == [x] + View(a, start, size)
  {
    hide Slot;
    var before := if start == 0 then |a| - 1 else start - 1;
    SlotIs(before, 0, |a|);
    forall j | 0 <= j < size
      ensures Slot(before, j + 1, |a|) == Slot(start, j, |a|) != before
    {
      SlotIs(before, j + 1, |a|);
      SlotIs(start, j, |a|);
    }
  }

  /** q while the elements behind the index are being moved down: those up to i have been. */
  ghost function Shifted<T>(q: seq<T>, index: nat, i: nat): (s: seq<T>)
    requires index <= i < |q|
    ensures |s| == |q|
  {
    q[..index] + q[index + 1..i + 1] + q[i..]
  }

  lemma ShiftStart<T>(q: seq<T>, index: nat)
    requires index < |q|
    ensures Shifted(q, index, index) == q
  {
  }

  lemma ShiftStep<T>(q: seq<T>, index: nat, i: nat)
    requires index <= i < |q| - 1
    ensures Shifted(q, index, i)[i + 1] == q[i + 1]
    ensures Shifted(q, index, i)[i := q[i + 1]] == Shifted(q, index, i + 1)
  {
  }

  lemma ShiftEnd<T>(q: seq<T>, index: nat)
    requires index < |q|
    ensures Shifted(q, index, |q| - 1)[..|q| - 1] == Removed(q, index)
  {
  }

  // ---------- The buffer ----------

  class CircArray<T(0)> {
    var arr: array<T>
    var start: nat
    var size: nat
    var capacity: nat

    ghost predicate Valid()
      reads this
    {
      capacity >= 1 && arr.Length == capacity && size <= capacity && start < capacity
    }

    ghost function Contents(): (q: seq<T>)
      requires Valid()
      reads this, arr
      ensures |q| == size
    {
      View(arr[..], start, size)
    }

    constructor (capacity: nat)
      requires capacity >= 1
      ensures Valid() && this.capacity == capacity && Contents() == [] && fresh(arr)
    {
      arr := new T[capacity];
      start, size := 0, 0;
      this.capacity := capacity;
    }

    /** operator[]: the test is index > size - 1 on unsigned numbers, so that an empty buffer is never
        out of bounds and gives whatever its array holds there. */
    method Get(index: nat) returns (r: Result<T>)
      requires Valid() && index < 0x1_0000_0000_0000_0000 && capacity < 0x1_0000_0000_0000_0000
      ensures r.InvalidIndexException? <==> size > 0 && index >= size
      ensures index < size ==> r == Value(Contents()[index])
      ensures size == 0 ==> r == Value(arr[Slot(start, index, capacity)])
    {
      if index > (size - 1) % 0x1_0000_0000_0000_0000 {
        return InvalidIndexException;
      }
      r := Value(arr[Slot(start, index, capacity)]);
    }

    method Set(index: nat, value: T)
      requires Valid() && index < size
      modifies arr
      ensures Contents() == old(Contents())[index := value]
    {
      hide Slot, View;
      ViewWrite(arr[..], start, size, index, value);
      arr[Slot(start, index, capacity)] := value;
    }

    method PushBack(value: T, overwriteWhenFull: bool) returns (rc: RC)
      requires Valid()
      modifies this`start, this`size, arr
      ensures Valid() && Contents() == PushedBack(old(Contents()), capacity, value, overwriteWhenFull)
      ensures rc == if old(size) < capacity || overwriteWhenFull then Success else NoSpaceError
      ensures rc == NoSpaceError ==> Contents() == old(Contents()) && |Contents()| == capacity
    {
      hide Slot, View;
      if size == capacity {
        if !overwriteWhenFull {
          return NoSpaceError;
        }
        var dropped, rc' := PopFront();
      }
      ViewWrite(arr[..], start, size, size, value);
      arr[Slot(start, size, capacity)] := value;
      size := size + 1;
      rc := Success;
    }

    method PopBack() returns (value: T, rc: RC)
      requires Valid()
      modifies this`size
      ensures Valid() && rc == if old(size) == 0 then BufferEmptyError else Success
      ensures old(size) == 0 ==> size == 0
      ensures old(size) > 0 ==>
              Contents() == old(Contents())[..old(size) - 1] &&
              value == old(Contents())[old(size) - 1]
    {
      hide Slot, View;
      value := *;
      if size == 0 {
        return value, BufferEmptyError;
      }
      ViewShorter(arr[..], start, size);
      value := arr[Slot(start, size - 1, capacity)];
      size := size - 1;
      rc := Success;
    }

    /** Room is made in front of the first element, and taken. */
    method Prepend(value: T)
      requires Valid() && size < capacity
      modifies this`start, this`size, arr
      ensures Valid() && Contents() == [value] + old(Contents())
    {
      hide Slot, View;
      ghost var before := arr[..];
      ViewPrepend(before, start, size, value);
      if start == 0 {
        start := capacity - 1;
      } else {
        start := start - 1;
      }
      arr[start] := value;
      assert arr[..] == before[start := value];
      size := size + 1;
    }

    method PushFront(value: T, overwriteWhenFull: bool) returns (rc: RC)
      requires Valid()
      modifies this`start, this`size, arr
      ensures Valid() && Contents() == PushedFront(old(Contents()), capacity, value, overwriteWhenFull)
      ensures rc == if old(size) < capacity || overwriteWhenFull then Success else NoSpaceError
      ensures rc == NoSpaceError ==> Contents() == old(Contents()) && |Contents()| == capacity
    {
      hide Slot, View;
      if size == capacity {
        if !overwriteWhenFull {
          return NoSpaceError;
        }
        var dropped, rc' := PopBack();
      }
      Prepend(value);
      rc := Success;
    }

    method PopFront() returns (value: T, rc: RC)
      requires Valid()
      modifies this`start, this`size
      ensures Valid() && rc == if old(size) == 0 then BufferEmptyError else Success
      ensures old(size) == 0 ==> size == 0
      ensures old(size) > 0 ==> Contents() == old(Contents())[1..] && value == old(Contents())[0]
    {
      hide Slot, View;
      value := *;
      if size == 0 {
        return value, BufferEmptyError;
      }
      ViewShorter(arr[..], start, size);
      SlotIs(start, 0, capacity);
      value := arr[start];
      size := size - 1;
      start := Slot(start, 1, capacity);
      rc := Success;
    }

    /** Removes the element at the index, moving the later ones down by one. An empty buffer, here
        too, is not found out of bounds. */
    method PopAt(index: nat) returns (r: Result<T>)
      requires Valid() && index < 0x1_0000_0000_0000_0000 && capacity < 0x1_0000_0000_0000_0000
      modifies this`size, arr
      ensures Valid()
      ensures index < old(size) ==> Contents() == Removed(old(Contents()), index) && r == Value(old(Contents())[index])
      ensures index >= old(size) ==> Contents() == old(Contents())
      ensures r.InvalidIndexException? <==> old(size) > 0 && index >= old(size)
    {
      hide Slot, View, Removed, Shifted;
      if index > (size - 1) % 0x1_0000_0000_0000_0000 {
        return InvalidIndexException;
      }
      ghost var q := Contents();
      r := Value(arr[Slot(start, index, capacity)]);
      if size == 0 {
        return;  // the loop would not be entered
      }
      ShiftStart(q, index);
      var i := index;
      while i < size
        invariant index <= i && Valid() && arr == old(arr) && (if i < |q| then size == |q| else size == |q| - 1)
        invariant if i < |q| then Contents() == Shifted(q, index, i) else Contents() == Removed(q, index)
        decreases |q| - i
      {
        if i == size - 1 {
          ShiftEnd(q, index);
          var last, rc := PopBack();
        } else {
          ShiftStep(q, index, i);
          Set(i, arr[Slot(start, i + 1, capacity)]);
        }
        i := i + 1;
      }
    }

    method ResizeByTwo()
      requires Valid()
      modifies this
      ensures Valid() && fresh(arr) && capacity == 2 * old(capacity) && Contents() == old(Contents())
    {
      hide Slot, View;
      ghost var q := Contents();
      var temp := new T[capacity * 2];
      var i := 0;
      while i < size
        invariant 0 <= i <= size && Contents() == q && unchanged(this) && arr == old(arr)
        invariant temp[..i] == q[..i]
        modifies temp
      {
        temp[i] := arr[Slot(start, i, capacity)];
        i := i + 1;
      }
      Straight(temp[..], q);
      capacity := capacity * 2;
      start := 0;
      arr := temp;
    }

    /** deep_copy, as the assignment operator calls it. An object assigned to itself has freed its
        elements before it copies them: only their number is left. */
    method Assign(rhs: CircArray<T>)
      requires Valid() && rhs.Valid()
      modifies this
      ensures Valid() && fresh(arr) && capacity == old(rhs.capacity) && |Contents()| == |old(rhs.Contents())|
      ensures rhs != this ==>
                Contents() == old(rhs.Contents()) && rhs.Valid() && rhs.Contents() == old(rhs.Contents())
    {
      hide Slot, View;
      start := rhs.start;
      size := rhs.size;
      capacity := rhs.capacity;
      arr := new T[rhs.capacity];
      var i := 0;
      while i < rhs.size
        invariant 0 <= i <= rhs.size && Valid() && (rhs != this ==> arr != rhs.arr)
        invariant rhs != this ==> rhs.Valid() && rhs.Contents() == old(rhs.Contents())
        invariant Contents()[..i] == rhs.Contents()[..i]
        modifies arr
      {
        var value := rhs.arr[Slot(rhs.start, i, rhs.capacity)];
        Set(i, value);
        i := i + 1;
      }
    }
  }

  lemma Straight<T>(a: seq<T>, q: seq<T>)
    requires |q| <= |a| && a[..|q|] == q && |a| > 0
    ensures View(a, 0, |q|) == q
  {
    hide Slot;
    forall i | 0 <= i < |q|
      ensures a[Slot(0, i, |a|)] == q[i]
    {
      SlotIs(0, i, |a|);
      assert a[i] == a[..|q|][i];
    }
  }
}
