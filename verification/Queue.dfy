/** The pointer queue of kernel/yanix/ds/queue.c, refined against a sequence. */
module Queue {

  import opened Basics

  const DEFAULT_SIZE: nat := 128  // QUEUE_DEFAULT_SIZE

  /** queue_push on a queue of the given capacity: the new contents and the return value. */
  function Pushed(s: seq<nat>, capacity: nat, x: nat): (seq<nat>, int) {
    if |s| == capacity then (s, -1) else (s + [x], |s|)
  }

  class Queue {
    var buffer: array<nat>
    var size: nat

    ghost predicate Valid()
      reads this
    {
      size <= buffer.Length
    }

    ghost function Contents(): seq<nat>
      reads this, buffer
      requires Valid()
    {
      buffer[..size]
    }

    /** queue_create: -1 asks for the default size. */
    constructor (n: int)
      requires n >= -1
      ensures Valid() && Contents() == []
      ensures fresh(buffer) && buffer.Length == if n == -1 then DEFAULT_SIZE else n
    {
      var capacity := if n == -1 then DEFAULT_SIZE else n;
      buffer := new nat[capacity];
      size := 0;
    }

    /** queue_pop: the oldest element, or null; the others move up one place, by a copy
        that runs upwards over the overlapping regions. */
    method Pop() returns (r: Option<nat>)
      requires Valid()
      modifies this`size, buffer
      ensures Valid() && buffer == old(buffer)
      ensures old(Contents()) == [] ==> r == None && Contents() == []
      ensures old(Contents()) != [] ==> r == Some(old(Contents())[0]) && Contents() == old(Contents())[1..]
    {
      if size == 0 { return None; }
      size := size - 1;
      r := Some(buffer[0]);
      var i := 0;
      while i < size
        invariant 0 <= i <= size == old(size) - 1 && buffer == old(buffer)
        invariant forall k | 0 <= k < i :: buffer[k] == old(buffer[k + 1])
        invariant forall k | i <= k < buffer.Length :: buffer[k] == old(buffer[k])
      {
        buffer[i] := buffer[i + 1];
        i := i + 1;
      }
    }

    /** queue_push: the position of the new element, or -1 when the queue is full. */
    method Push(x: nat) returns (r: int)
      requires Valid()
      modifies this`size, buffer
      ensures Valid() && buffer == old(buffer)
      ensures (Contents(), r) == Pushed(old(Contents()), buffer.Length, x)
    {
      if buffer.Length == size { return -1; }
      buffer[size] := x;
      size := size + 1;
      r := size - 1;
      assert Contents() == old(Contents()) + [x];
    }
  }
}
