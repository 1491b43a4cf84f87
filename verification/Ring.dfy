/** The ring of kernel/yanix/ds/ringbuffer.c with the 16-bit index
    (RINGBUFFER_OPTIMIZE_USHORTINT), refined against `ByteStream`.

    `virtual_begin` and `virtual_end` are 32-bit counters that wrap; the slot of a byte is
    its counter truncated to 16 bits.  Such an index reaches 65536 slots, one more than the
    kernel allocates: the last slot is the byte behind the store.  The model keeps what is
    written there, and `stray` records every write outside the store. */
module Ring {
  import opened Basics
  import opened ByteStream

  const SLOTS: nat := 0x1_0000
  const STORE: nat := 0xFFFF    // USHRT_MAX: the bytes that are allocated

  /** A counter truncated to `unsigned short int`. */
  function U16(x: nat): (r: nat)
    ensures r < 0x1_0000
  {
    x % 0x1_0000
  }

  /** The `n` bytes from counter `begin` on. */
  function Window(buf: seq<Byte>, begin: nat, n: nat): (w: seq<Byte>)
    requires |buf| == SLOTS
    ensures |w| == n
    ensures forall k | 0 <= k < n :: w[k] == buf[U16(begin + k)]
  {
    seq(n, k requires 0 <= k < n => buf[U16(begin + k)])
  }

  // ---------------------------------------------------------------- counters

  /** Truncation to 16 bits does not see the wrap at 32 bits. */
  lemma U16OfU32(x: nat)
    ensures U16(U32(x)) == U16(x)
  {
    var q := x / 0x1_0000_0000;
    assert x == U32(x) + q * 0x1_0000_0000;
    MultipleVanishes(U32(x), q * 0x1_0000);
  }

  lemma MultipleVanishes(a: nat, q: nat)
    ensures (a + q * 0x1_0000) % 0x1_0000 == a % 0x1_0000
  {
  }

  lemma U16Sum(x: nat, y: nat)
    ensures U16(U16(x) + y) == U16(x + y)
  {
    var q := x / 0x1_0000;
    assert x == U16(x) + q * 0x1_0000;
    MultipleVanishes(U16(x) + y, q);
  }

  lemma SlotsDistinct(begin: nat, i: nat, j: nat)
    requires i < j < i + SLOTS
    ensures U16(begin + i) != U16(begin + j)
  {
  }

  lemma CounterSum(x: nat, k: nat)
    ensures U16(U32(x) + k) == U16(x + k)
  {
    U16OfU32(x);
    U16Sum(U32(x), k);
    U16Sum(x, k);
  }

  /** A window does not see where its counter wrapped. */
  lemma WindowWraps(buf: seq<Byte>, x: nat, n: nat)
    requires |buf| == SLOTS
    ensures Window(buf, U32(x), n) == Window(buf, x, n)
  {
    forall k | 0 <= k < n ensures Window(buf, U32(x), n)[k] == Window(buf, x, n)[k] { CounterSum(x, k); }
  }

  lemma WindowPut(buf: seq<Byte>, begin: nat, n: nat, b: Byte)
    requires |buf| == SLOTS && n < SLOTS
    ensures Window(buf[U16(begin + n) := b], begin, n + 1) == Window(buf, begin, n) + [b]
  {
    var buf' := buf[U16(begin + n) := b];
    forall k | 0 <= k < n ensures Window(buf', begin, n + 1)[k] == Window(buf, begin, n)[k] {
      SlotsDistinct(begin, k, n);
    }
  }

  lemma WindowDrop(buf: seq<Byte>, begin: nat, n: nat, m: nat)
    requires |buf| == SLOTS && m <= n
    ensures Window(buf, begin + m, n - m) == Window(buf, begin, n)[m..]
  {
  }

  lemma EndSlot(vbegin: nat, vend: nat)
    requires vbegin < 0x1_0000_0000 && vend < 0x1_0000_0000
    ensures U16(vend) == U16(vbegin + U32(vend - vbegin))
  {
    var len := U32(vend - vbegin);
    assert vend == U32(vbegin + len);
    U16OfU32(vbegin + len);
  }

  lemma Advance(vbegin: nat, vend: nat, m: nat)
    requires vbegin < 0x1_0000_0000 && vend < 0x1_0000_0000 && m <= U32(vend - vbegin)
    ensures U32(vend - U32(vbegin + m)) == U32(vend - vbegin) - m
  {
  }

  lemma Extend(vbegin: nat, vend: nat, m: nat)
    requires vbegin < 0x1_0000_0000 && vend < 0x1_0000_0000 && U32(vend - vbegin) + m < 0x1_0000_0000
    ensures U32(U32(vend + m) - vbegin) == U32(vend - vbegin) + m
  {
  }

  lemma Retract(vbegin: nat, vend: nat)
    requires vbegin < 0x1_0000_0000 && vend < 0x1_0000_0000 && U32(vend - vbegin) > 0
    ensures U32(U32(vend - 1) - vbegin) == U32(vend - vbegin) - 1
  {
  }

  /** The slot behind a window that does not fill the store is outside it. */
  lemma WindowOutside(buf: seq<Byte>, begin: nat, n: nat, slot: nat)
    requires |buf| == SLOTS && n < SLOTS && slot == U16(begin + n)
    ensures Window(buf[slot := 0], begin, n) == Window(buf, begin, n)
  {
    forall k | 0 <= k < n ensures Window(buf[slot := 0], begin, n)[k] == Window(buf, begin, n)[k] {
      SlotsDistinct(begin, k, n);
    }
  }

  /** The slot behind the store is reached once, when the index runs into it. */
  lemma LastSlot(x: nat, start: nat, i: nat, ind: nat)
    requires start == U16(x) && ind == U16(x + i) && i < 0xFFFF
    ensures ind == 0xFFFF <==> start + i == 0xFFFF
    ensures ind <= 0xFFFF
  {
  }

  /** What one more byte does to the number of bytes a reader may have. */
  lemma ReadyNext(len: nat, ready: nat, data: seq<Byte>, i: nat, nonblock: bool)
    requires i < |data|
    ensures WriteReady(len, ready, data[..i + 1], nonblock) ==
            if nonblock || data[i] == NEWLINE then len + i + 1 else WriteReady(len, ready, data[..i], nonblock)
  {
    assert data[..i + 1][..i] == data[..i];
  }

  class Ring {
    const buffer: array<Byte>
    var vbegin: nat
    var vend: nat
    var cursize: nat
    var nonblock: bool         // O_NONBLOCK in flags
    ghost var stray: set<nat>  // offsets outside the store that were written to

    ghost predicate Valid()
      reads this, buffer
    {
      && buffer.Length == SLOTS
      && vbegin < 0x1_0000_0000 && vend < 0x1_0000_0000
      && Backlog() < SLOTS
      && cursize <= SLOTS
    }

    function Backlog(): nat
      reads this
    {
      U32(vend - vbegin)
    }

    ghost function Abs(): Stream
      reads this, buffer
      requires buffer.Length == SLOTS
    {
      Stream(Window(buffer[..], vbegin, Backlog()), cursize)
    }

    constructor ()
      ensures Valid() && Abs() == EMPTY && !nonblock && stray == {} && vend == 0
      ensures fresh(buffer)
    {
      buffer := new Byte[SLOTS](_ => 0);
      vbegin, vend, cursize, nonblock, stray := 0, 0, 0, false, {};
    }

    /** One byte, stored behind the `n` bytes from `vbegin` on. */
    method PutByte(ind: nat, b: Byte, ghost n: nat)
      requires buffer.Length == SLOTS && n < SLOTS && ind == U16(vbegin + n)
      modifies buffer, this`stray
      ensures Window(buffer[..], vbegin, n + 1) == Window(old(buffer[..]), vbegin, n) + [b]
      ensures stray == old(stray) + if ind >= STORE then {ind} else {}
    {
      if ind >= STORE { stray := stray + {ind}; }
      WindowPut(buffer[..], vbegin, n, b);
      buffer[ind] := b;
      assert buffer[..] == old(buffer[..])[ind := b];
    }

    /** One round of the loop of ringbuffer_write_index: each newline (or, without blocking,
        each byte) moves the number of bytes a reader may have. */
    method PutNext(data: seq<Byte>, i: nat, ind: nat, len: nat, ghost start: nat, ghost ready: nat) returns (ind': nat)
      requires buffer.Length == SLOTS && i < |data| && len + |data| < SLOTS
      requires start == U16(vbegin + len) && ind == U16(vbegin + len + i)
      requires cursize == WriteReady(len, ready, data[..i], nonblock)
      modifies buffer, this`cursize, this`stray
      ensures Window(buffer[..], vbegin, len + i + 1) == Window(old(buffer[..]), vbegin, len + i) + [data[i]]
      ensures cursize == WriteReady(len, ready, data[..i + 1], nonblock)
      ensures stray == old(stray) + if start + i == STORE then {STORE} else {}
      ensures ind' == U16(vbegin + len + i + 1)
    {
      if nonblock || data[i] == NEWLINE {
        cursize := U32(len + i + 1);
      }
      ReadyNext(len, ready, data, i, nonblock);
      LastSlot(vbegin + len, start, i, ind);
      PutByte(ind, data[i], len + i);
      U16Sum(vbegin + len + i, 1);
      ind' := U16(ind + 1);
    }

    /** The loop of ringbuffer_write_index, behind `len` unread bytes. */
    method PutBytes(data: seq<Byte>, start: nat, len: nat)
      requires buffer.Length == SLOTS && start == U16(vbegin + len) && len + |data| < SLOTS && cursize <= SLOTS
      modifies buffer, this`cursize, this`stray
      ensures stray == old(stray) + if STORE < start + |data| then {STORE} else {}
      ensures Window(buffer[..], vbegin, len + |data|) == Window(old(buffer[..]), vbegin, len) + data
      ensures cursize == WriteReady(len, old(cursize), data, nonblock) <= SLOTS
    {
      ghost var unread := Window(buffer[..], vbegin, len);
      var i, ind := 0, start;
      while i < |data|
        invariant 0 <= i <= |data|
        invariant ind == U16(vbegin + len + i)
        invariant Window(buffer[..], vbegin, len + i) == unread + data[..i]
        invariant cursize == WriteReady(len, old(cursize), data[..i], nonblock)
        invariant stray == old(stray) + if STORE < start + i then {STORE} else {}
      {
        ind := PutNext(data, i, ind, len, start, old(cursize));
        assert data[..i + 1] == data[..i] + [data[i]];
        i := i + 1;
      }
      assert data[..|data|] == data;
    }

    /** ringbuffer_write: the bytes go in behind the unread ones. */
    method Write(data: seq<Byte>) returns (r: int)
      requires Valid() && |Abs().unread| + |data| < SLOTS
      modifies buffer, this`vend, this`cursize, this`stray
      ensures Valid() && r == |data|
      ensures stray == old(stray) + if STORE - U16(old(vend)) < |data| then {STORE} else {}
      ensures Abs() == ByteStream.Write(old(Abs()), data, nonblock) && vend == U32(old(vend) + |data|)
    {
      var len := U32(vend - vbegin);
      EndSlot(vbegin, vend);
      Extend(vbegin, vend, |data|);
      PutBytes(data, U16(vend), len);
      vend := U32(vend + |data|);
      return |data|;
    }

    /** The loop of ringbuffer_read_index. */
    method CopyOut(max: nat) returns (r: seq<Byte>)
      requires buffer.Length == SLOTS
      ensures r == Window(buffer[..], vbegin, max)
    {
      var ind := U16(vbegin);
      r := [];
      var i := 0;
      while i < max
        invariant 0 <= i <= max
        invariant ind == U16(vbegin + i)
        invariant r == Window(buffer[..], vbegin, i)
      {
        r := r + [buffer[ind]];
        U16Sum(vbegin + i, 1);
        ind := U16(ind + 1);
        i := i + 1;
      }
    }

    /** The step forward of virtual_begin. */
    method Consume(max: nat)
      requires Valid() && max <= Backlog()
      modifies this`vbegin
      ensures Valid() && Backlog() == old(Backlog()) - max
      ensures Abs() == old(Abs()).(unread := old(Abs()).unread[max..])
    {
      ghost var len := Backlog();
      Advance(vbegin, vend, max);
      WindowDrop(buffer[..], vbegin, len, max);
      WindowWraps(buffer[..], vbegin + max, len - max);
      vbegin := U32(vbegin + max);
    }

    /** ringbuffer_read: the oldest bytes, no more than a blocked reader may have. */
    method Read(size: nat) returns (r: seq<Byte>)
      requires Valid()
      modifies this`vbegin, this`cursize
      ensures Valid()
      ensures (Abs(), r) == ByteStream.Read(old(Abs()), size)
    {
      ghost var s := Abs();
      var len := U32(vend - vbegin);
      var max := size;
      if cursize != 0 && cursize < max {
        max := cursize;
      }
      if max > len {
        max := len;
      }
      assert max == Readable(s, size);
      r := CopyOut(max);
      assert r == s.unread[..max];
      Consume(max);
      if cursize != 0 {
        cursize := cursize - max;
      }
    }

    /** ringbuffer_flush */
    method Flush()
      requires Valid()
      modifies this`vbegin, this`cursize
      ensures Valid() && Abs() == ByteStream.Flush(old(Abs()))
    {
      vbegin := vend;
      cursize := 0;
    }

    /** The zero byte that ringbuffer_remove stores behind the unread ones.  The counter
        is not truncated, so the byte lands in the store exactly when the counter is below
        the size of the store. */
    method PutZero(ghost len: nat)
      requires buffer.Length == SLOTS && len < SLOTS && U16(vend) == U16(vbegin + len)
      modifies buffer, this`stray
      ensures Window(buffer[..], vbegin, len) == Window(old(buffer[..]), vbegin, len)
      ensures stray == old(stray) + if vend < STORE then {} else {vend}
    {
      if vend >= STORE { stray := stray + {vend}; }
      if vend < SLOTS {
        WindowOutside(buffer[..], vbegin, len, vend);
        buffer[vend] := 0;
        assert buffer[..] == old(buffer[..])[vend := 0];
      }
    }

    /** ringbuffer_remove of the last unread byte. */
    method Remove() returns (r: int)
      requires Valid()
      modifies buffer, this`vend, this`stray
      ensures Valid()
      ensures r == 0 ==> ByteStream.Remove(old(Abs())) == Some(Abs())
      ensures r != 0 ==> r == -1 && ByteStream.Remove(old(Abs())) == None && Abs() == old(Abs())
      ensures stray == old(stray) + if r == 0 && old(vend) >= STORE then {old(vend)} else {}
      ensures vend == if r == 0 then U32(old(vend) - 1) else old(vend)
    {
      ghost var s := Abs();
      var len := U32(vend - vbegin);
      if len == 0 { return -1; }
      EndSlot(vbegin, vend);
      Retract(vbegin, vend);
      PutZero(len);
      vend := U32(vend - 1);
      assert Abs().unread == s.unread[..len - 1];
      return 0;
    }
  }

  /** In a new ring that was written full, the removal of a byte writes behind the store, and
      so does the last byte of a write to the end of the index. */
  method StrayByteExample() returns (r: int, ghost afterWrite: set<nat>, ghost afterRemove: set<nat>)
    ensures r == 0 && afterWrite == {} && afterRemove == {65535}
  {
    var ring := new Ring();
    var data: seq<Byte> := seq(65535, _ => NEWLINE);
    var _ := ring.Write(data);
    afterWrite := ring.stray;
    r := ring.Remove();
    afterRemove := ring.stray;
  }

  /** The second of two writes of 40000 bytes puts a byte behind the store. */
  method StrayWriteExample() returns (r: int, ghost stray: set<nat>)
    ensures stray == {65535}
  {
    var ring := new Ring();
    var data: seq<Byte> := seq(40000, _ => NEWLINE);
    r := ring.Write(data);
    var _ := ring.Read(40000);
    assert ring.Abs().unread == [];
    r := ring.Write(data);
    stray := ring.stray;
  }
}
