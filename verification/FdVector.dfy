/** The table of file descriptors of kernel/yanix/ds/fd_vector.c and the descriptor calls of
    kernel/fs/filedescriptor.c.

    A table is read as an endless one: behind its end every slot is empty.  A slot is free
    when its node is null.  POSIX.1-2017, section 2.14 of the System Interfaces volume, has
    every call that makes a descriptor take the lowest one that is free. */
module FdVector {

  datatype Fd = Fd(node: nat, mode: int, seek: int, flags: int)

  const EMPTY: Fd := Fd(0, 0, 0, 0)
  const BEGIN: nat := 8  // VECTOR_BEGIN_AMOUNT

  /** Slot `k` of the endless table. */
  function At(table: seq<Fd>, k: nat): Fd { if k < |table| then table[k] else EMPTY }

  /** `r` is the lowest free descriptor that is at least `from`. */
  ghost predicate Lowest(table: seq<Fd>, from: nat, r: nat) {
    && from <= r && At(table, r).node == 0
    && forall k: nat | from <= k < r :: At(table, k).node != 0
  }

  /** Only slot `r` changed. */
  ghost predicate Updated(table: seq<Fd>, table': seq<Fd>, r: nat, fd: Fd) {
    forall k: nat :: At(table', k) == if k == r then fd else At(table, k)
  }

  lemma LowestUnique(table: seq<Fd>, from: nat, r: nat, r': nat)
    requires Lowest(table, from, r) && Lowest(table, from, r')
    ensures r == r'
  {
    assert r < r' ==> At(table, r).node != 0;
    assert r' < r ==> At(table, r').node != 0;
  }

  /** After a descriptor is closed the next one made is the lower of it and the one that
      would have been made. */
  lemma CloseThenOpen(table: seq<Fd>, table': seq<Fd>, fd: nat, r: nat, r': nat)
    requires Updated(table, table', fd, At(table, fd).(node := 0))
    requires Lowest(table, 0, r) && Lowest(table', 0, r')
    ensures r' == if fd < r then fd else r
  {
    var m := if fd < r then fd else r;
    assert At(table', fd).node == 0;
    assert At(table', m).node == 0;
    assert forall k: nat | k < m :: At(table', k).node != 0;
    LowestUnique(table', 0, m, r');
  }

  /** roundup of kernel/libk/math/math.c */
  function RoundUp(x: nat, y: nat): nat
    requires y > 0
  {
    if x % y == 0 then x / y else x / y + 1
  }

  lemma MultipleWithin(x: nat, y: nat)
    requires 0 < y && x <= y
    ensures x == 0 || x % y != 0 <==> x < y
  {
  }

  /** What growing by roundup gives: more than `x` slots, save for a multiple. */
  lemma RoundUpCovers(x: nat, y: nat)
    requires 0 < y <= x
    ensures if x % y == 0 then y * RoundUp(x, y) == x else y * RoundUp(x, y) > x
    ensures y * RoundUp(x, y) >= y && RoundUp(x, y) >= 1 && y * RoundUp(x, y) < x + y
  {
    assert x == y * (x / y) + x % y;
    assert y * (x / y + 1) == y * (x / y) + y;
  }

  /** The number of slots after vector_set of slot `fd`. */
  function Grown(n: nat, fd: int): nat
    requires n > 0
  {
    if fd >= n then n * RoundUp(fd, n) else n
  }

  class Vector {
    var buffer: array<Fd>  // vector_maxsize == buffer.Length
    var size: nat

    ghost predicate Valid()
      reads this, buffer
    {
      && 0 < buffer.Length && size <= buffer.Length
      && forall k | size <= k < buffer.Length :: buffer[k].node == 0
    }

    ghost function Table(): seq<Fd>
      reads this, buffer
    {
      buffer[..]
    }

    /** vector_create */
    constructor ()
      ensures Valid() && fresh(buffer) && buffer.Length == BEGIN && size == 0
      ensures forall k: nat :: At(Table(), k) == EMPTY
    {
      buffer := new Fd[BEGIN](_ => EMPTY);
      size := 0;
    }

    /** vector_copy */
    constructor Copy(cp: Vector)
      requires cp.Valid()
      ensures Valid() && fresh(buffer) && size == cp.size && Table() == cp.Table()
    {
      var source := cp.buffer;
      buffer := new Fd[source.Length](i requires 0 <= i < source.Length reads source => source[i]);
      size := cp.size;
    }

    /** vector_expand: more slots, and the same table. */
    method Expand(amount: nat)
      requires Valid() && buffer.Length * amount >= buffer.Length
      modifies this`buffer
      ensures Valid() && fresh(buffer) && buffer.Length == old(buffer.Length) * amount
      ensures forall k: nat :: At(Table(), k) == At(old(Table()), k)
    {
      var tmp := new Fd[buffer.Length * amount](_ => EMPTY);
      forall i | 0 <= i < buffer.Length { tmp[i] := buffer[i]; }
      buffer := tmp;
    }

    /** The slots behind the size are free, read from the endless table. */
    lemma FreeBehind(k: nat)
      requires Valid() && size <= k
      ensures At(Table(), k).node == 0
    {
    }

    /** The growth of vector_add_from and vector_set, to hold slot `x`: it does, save when `x`
        is a multiple of the number of slots. */
    method Grow(x: nat)
      requires Valid() && x >= buffer.Length
      modifies this`buffer
      ensures Valid() && fresh(buffer) && buffer.Length >= old(buffer.Length)
      ensures buffer.Length == old(buffer.Length) * RoundUp(x, old(buffer.Length))
      ensures if x % old(buffer.Length) == 0 then buffer.Length == x else buffer.Length > x
      ensures forall k: nat :: At(Table(), k) == At(old(Table()), k)
    {
      RoundUpCovers(x, buffer.Length);
      Expand(RoundUp(x, buffer.Length));
    }

    /** vector_push */
    method Push(fd: Fd) returns (r: nat)
      requires Valid()
      modifies this, buffer
      ensures Valid() && (buffer == old(buffer) || fresh(buffer))
      ensures r == old(size) && size == old(size) + 1 && Updated(old(Table()), Table(), r, fd)
      ensures buffer.Length == if r == old(buffer.Length) then 2 * r else old(buffer.Length)
    {
      if size == buffer.Length { Expand(2); }
      buffer[size] := fd;
      size := size + 1;
      return size - 1;
    }

    /** vector_add: the lowest free descriptor. */
    method Add(fd: Fd) returns (r: nat)
      requires Valid()
      modifies this, buffer
      ensures Valid() && (buffer == old(buffer) || fresh(buffer))
      ensures Lowest(old(Table()), 0, r) && Updated(old(Table()), Table(), r, fd)
      ensures size == if r < old(size) then old(size) else r + 1
      ensures buffer.Length == if r == old(buffer.Length) then 2 * r else old(buffer.Length)
    {
      ghost var table := Table();
      var i := 0;
      while i < size
        invariant 0 <= i <= size && unchanged(this) && unchanged(buffer)
        invariant forall k: nat | k < i :: At(table, k).node != 0
      {
        if buffer[i].node == 0 {
          buffer[i] := fd;
          return i;
        }
        i := i + 1;
      }
      FreeBehind(size);
      r := Push(fd);
    }

    /** The loop of vector_add_from: the first free slot at or behind `from`, or the end. */
    method Scan(from: nat) returns (i: nat)
      requires Valid() && from <= buffer.Length
      ensures from <= i <= buffer.Length
      ensures forall k: nat | from <= k < i :: At(Table(), k).node != 0
      ensures i < buffer.Length ==> At(Table(), i).node == 0
      ensures from < i == buffer.Length ==> size == buffer.Length
    {
      i := from;
      while i < buffer.Length
        invariant from <= i <= buffer.Length
        invariant forall k: nat | from <= k < i :: At(Table(), k).node != 0
      {
        if buffer[i].node == 0 { return; }
        i := i + 1;
      }
      if from < i { assert At(Table(), i - 1).node != 0; }
    }

    /** vector_add_from: the lowest free descriptor at or behind `from`, save when that is a
        multiple of the number of slots, other than 0 and other than the end of a full table;
        then one below `from`. */
    method AddFrom(fd: Fd, from: nat) returns (r: nat)
      requires Valid()
      modifies this, buffer
      ensures Valid() && (buffer == old(buffer) || fresh(buffer))
      ensures Updated(old(Table()), Table(), r, fd)
      ensures if from == 0 || from % old(buffer.Length) != 0 || from == old(buffer.Length) == old(size)
              then Lowest(old(Table()), from, r) else r == old(size) < from
      ensures size == if r < old(size) then old(size) else r + 1
      ensures buffer.Length == if from > old(buffer.Length) then old(buffer.Length) * RoundUp(from, old(buffer.Length))
                               else if r == old(buffer.Length) then 2 * r else old(buffer.Length)
    {
      if from <= buffer.Length {
        MultipleWithin(from, buffer.Length);
        r := AddBehind(fd, from);
      } else {
        Grow(from);
        FreeBehind(from);
        r := AddBehind(fd, from);
      }
    }

    /** The part of vector_add_from after the growth. */
    method AddBehind(fd: Fd, from: nat) returns (r: nat)
      requires Valid() && from <= buffer.Length
      modifies this, buffer
      ensures Valid() && (buffer == old(buffer) || fresh(buffer))
      ensures Updated(old(Table()), Table(), r, fd)
      ensures if from < old(buffer.Length) || old(size) == old(buffer.Length) then Lowest(old(Table()), from, r)
              else r == old(size)
      ensures size == if r < old(size) then old(size) else r + 1
      ensures buffer.Length == if r == old(buffer.Length) then 2 * r else old(buffer.Length)
    {
      var i := Scan(from);
      if i < buffer.Length {
        if i >= size { size := i + 1; }
        buffer[i] := fd;
        return i;
      }
      FreeBehind(size);
      r := Push(fd);
    }

    /** vector_set: in bounds exactly when `fd` is below the number of slots or no multiple
        of it. */
    method Set(obj: Fd, fd: int) returns (ok: bool)
      requires Valid()
      modifies this, buffer
      ensures ok <==> 0 <= fd && (fd < old(buffer.Length) || fd % old(buffer.Length) != 0)
      ensures ok ==> Valid() && (buffer == old(buffer) || fresh(buffer)) && Updated(old(Table()), Table(), fd, obj)
      ensures ok ==> size == if fd < old(size) then old(size) else fd + 1
      ensures buffer.Length == Grown(old(buffer.Length), fd)
    {
      if fd < 0 { return false; }
      if fd >= buffer.Length { Grow(fd); }
      if fd >= size { size := fd + 1; }
      if fd >= buffer.Length { return false; }
      buffer[fd] := obj;
      return true;
    }

    /** vector_get, with the bounds check of get_filedescriptor: whether there is a slot. */
    predicate HasSlot(fd: int)
      reads this
    {
      0 <= fd < size
    }

    /** close_filedescriptor, with vector_clear. */
    method Close(fd: int) returns (r: int)
      requires Valid()
      modifies buffer
      ensures Valid() && r == 0
      ensures if fd >= 0 then Updated(old(Table()), Table(), fd, At(old(Table()), fd).(node := 0))
              else Table() == old(Table())
    {
      if HasSlot(fd) { buffer[fd] := buffer[fd].(node := 0); }
      return 0;
    }

    /** register_filedescriptor */
    method Register(node: nat, flags: int, mode: int) returns (r: nat)
      requires Valid()
      modifies this, buffer
      ensures Valid() && (buffer == old(buffer) || fresh(buffer))
      ensures Lowest(old(Table()), 0, r) && Updated(old(Table()), Table(), r, Fd(node, mode, 0, flags))
      ensures size == if r < old(size) then old(size) else r + 1
      ensures buffer.Length == if r == old(buffer.Length) then 2 * r else old(buffer.Length)
    {
      r := Add(Fd(node, mode, 0, flags));
    }

    predicate Open(fd: int)
      requires size <= buffer.Length
      reads this, buffer
    {
      HasSlot(fd) && buffer[fd].node != 0
    }

    /** A descriptor is open when its slot of the endless table is not free. */
    lemma OpenIff(fd: int)
      requires Valid()
      ensures Open(fd) <==> fd >= 0 && At(Table(), fd).node != 0
    {
    }

    /** dup_filedescriptor: a negative `from` other than -1 makes it look in front of the table. */
    method Dup(fd: int, from: int) returns (r: int, ok: bool)
      requires Valid()
      modifies this, buffer
      ensures Valid() && (buffer == old(buffer) || fresh(buffer))
      ensures ok <==> from >= -1 || !(fd >= 0 && At(old(Table()), fd).node != 0)
      ensures ok ==> (r == -1 <==> !(fd >= 0 && At(old(Table()), fd).node != 0))
      ensures ok && r == -1 ==> Table() == old(Table())
      ensures ok && r != -1 ==> r >= 0 && Updated(old(Table()), Table(), r, At(old(Table()), fd))
      ensures ok && r != -1 && from == -1 ==> Lowest(old(Table()), 0, r)
      ensures ok && r != -1 && from != -1 ==>
                if from == 0 || from % old(buffer.Length) != 0 || from == old(buffer.Length) == old(size)
                then Lowest(old(Table()), from, r) else r == old(size) < from
    {
      ok := true;
      OpenIff(fd);
      if !Open(fd) { return -1, true; }
      if from == -1 {
        r := Add(buffer[fd]);
      } else if from < -1 {
        return -1, false;
      } else {
        r := AddFrom(buffer[fd], from);
      }
    }

    /** dup2_filedescriptor: slot `new_` becomes a copy of slot `old_`, save when they are the
        same, which closes it. */
    method Dup2(old_: int, new_: int) returns (r: int, ok: bool)
      requires Valid()
      modifies this, buffer
      ensures var fd := if old_ >= 0 then At(old(Table()), old_) else EMPTY;
              if fd.node == 0 then r == -1 && ok && Table() == old(Table())
              else
                && (ok <==> 0 <= new_ && (new_ < old(buffer.Length) || new_ % old(buffer.Length) != 0))
                && buffer.Length == Grown(old(buffer.Length), new_)
                && (ok ==>
                      && r == new_ >= 0 && Valid()
                      && Updated(old(Table()), Table(), new_, if old_ == new_ then fd.(node := 0) else fd)
                      && size == if new_ < old(size) then old(size) else new_ + 1)
    {
      OpenIff(old_);
      if !Open(old_) { return -1, true; }
      var _ := Close(new_);
      ok := Set(buffer[old_], new_);
      r := new_;
    }

    /** check_filedescriptors: everything marked close-on-exec is closed, and nothing else. */
    method CheckFiledescriptors()
      requires Valid()
      modifies buffer
      ensures Valid()
      ensures forall k: nat :: At(Table(), k) ==
                if At(old(Table()), k).flags % 2 == 1 then At(old(Table()), k).(node := 0) else At(old(Table()), k)
    {
      ghost var table := Table();
      var fds := size;
      var i := 0;
      while i < fds
        invariant 0 <= i <= fds && Valid()
        invariant forall k: nat | k < i :: At(Table(), k) ==
                    if At(table, k).flags % 2 == 1 then At(table, k).(node := 0) else At(table, k)
        invariant forall k: nat | k >= i :: At(Table(), k) == At(table, k)
      {
        if HasSlot(i) && buffer[i].flags % 2 == 1 {
          var _ := Close(i);
        }
        i := i + 1;
      }
    }
  }

  // ---------------------------------------------------------------- where the laws fail

  /** On a new table, descriptor 0 is given out when 8 or more is asked for. */
  method AddFromExample() returns (r: nat)
    ensures r == 0
  {
    var v := new Vector();
    r := v.AddFrom(Fd(1, 0, 0, 0), 8);
  }

  /** On a new table, setting descriptor 8 writes behind the table. */
  method SetExample() returns (ok: bool)
    ensures !ok
  {
    var v := new Vector();
    ok := v.Set(Fd(1, 0, 0, 0), 8);
  }

  /** Duplicating descriptor 0 onto itself closes it. */
  method Dup2Example() returns (before: bool, after: bool)
    ensures before && !after
  {
    var v := new Vector();
    assert At(v.Table(), 0) == EMPTY;
    var fd := v.Register(1, 0, 0);
    assert fd == 0 && At(v.Table(), 0).node == 1;
    before := v.Open(0);
    v.OpenIff(0);
    var r, ok := v.Dup2(0, 0);
    assert ok && At(v.Table(), 0).node == 0;
    v.OpenIff(0);
    after := v.Open(0);
  }
}
