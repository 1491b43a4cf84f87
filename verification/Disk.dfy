/** The byte interface over block devices of kernel/drivers/disk.c.

    A disk is a flat sequence of bytes; its driver moves whole blocks of `blockSize` bytes,
    or single bytes when the block size is 0.  A transfer that leaves the memory it was
    given is a None.  The law of this layer is that a transfer of `size` bytes at `offset`
    is a transfer of those bytes of the flat disk; Contained says exactly when it holds. */
module Disk {
  import opened Basics
  import opened Blocks

  /** The transfer starts on a block, or stays inside one. */
  predicate Contained(bs: nat, offset: nat, size: nat) {
    bs == 0 || offset % bs == 0 || offset % bs + size <= bs
  }

  /** `n` bytes from `from` on. */
  function Piece(bytes: seq<nat>, from: nat, n: nat): seq<nat>
    requires from + n <= |bytes|
  {
    bytes[from..from + n]
  }

  /** A buffer after a piece was copied into it. */
  function Put(buf: seq<nat>, at: nat, piece: seq<nat>): seq<nat>
    requires at + |piece| <= |buf|
  {
    buf[..at] + piece + buf[at + |piece|..]
  }

  /** What disk_read leaves in the buffer. */
  function ReadInto(bytes: seq<nat>, bs: nat, offset: nat, size: nat, buf: seq<nat>): Option<seq<nat>>
    requires offset + size <= |bytes| && size <= |buf|
  {
    if Contained(bs, offset, size) then Some(Put(buf, 0, Piece(bytes, offset, size)))
    else if size < bs || size % bs < offset % bs then None
    else
      ShortBy(bs, offset, size);
      var n := size - 2 * (offset % bs);
      Some(Put(buf, 0, Piece(bytes, offset, n)))
  }

  lemma ShortBy(bs: nat, offset: nat, size: nat)
    requires bs > 0 && size >= bs && size % bs >= offset % bs
    ensures 2 * (offset % bs) <= size
  {
    assert size == size / bs * bs + size % bs;
    assert size / bs >= 1;
    assert size / bs * bs >= bs;
  }

  /** What disk_write makes of the disk. */
  function Written(bytes: seq<nat>, bs: nat, offset: nat, data: seq<nat>, size: nat): Option<seq<nat>>
    requires offset + size <= |bytes| && size <= |data|
  {
    if Contained(bs, offset, size) then Some(Put(bytes, offset, data[..size]))
    else
      var rest := offset % bs;
      if |data| < size + rest then None
      else Some(Put(bytes, offset, data[..bs - rest] + data[bs..size + rest]))
  }

  lemma LastByteNotRead(bytes: seq<nat>, bs: nat, offset: nat, size: nat, buf: seq<nat>)
    requires offset + size <= |bytes| && size == |buf| && !Contained(bs, offset, size)
    ensures var r := ReadInto(bytes, bs, offset, size, buf);
            r.Some? ==> |r.value| == size && r.value[size - 1] == buf[size - 1]
  {
    if size >= bs && size % bs >= offset % bs {
      ShortBy(bs, offset, size);
      var n := size - 2 * (offset % bs);
      assert Put(buf, 0, Piece(bytes, offset, n))[size - 1] == buf[size - 1];
    }
  }

  /** A read delivers the bytes of the flat disk, whatever the buffer held, exactly when the
      transfer starts on a block or stays inside one. */
  lemma ReadCorrectIff(bytes: seq<nat>, bs: nat, offset: nat, size: nat)
    requires offset + size <= |bytes|
    ensures (forall buf: seq<nat> | |buf| == size ::
               ReadInto(bytes, bs, offset, size, buf) == Some(bytes[offset..offset + size]))
            <==> bs == 0 || offset % bs == 0 || offset % bs + size <= bs
  {
    var part := Piece(bytes, offset, size);
    if Contained(bs, offset, size) {
      forall buf: seq<nat> | |buf| == size ensures ReadInto(bytes, bs, offset, size, buf) == Some(part) {
        assert Put(buf, 0, part) == part;
      }
    } else {
      var n: nat := part[size - 1] + 1;
      var buf: seq<nat> := part[size - 1 := n];
      LastByteNotRead(bytes, bs, offset, size, buf);
      assert ReadInto(bytes, bs, offset, size, buf) != Some(part);
    }
  }

  /** A write replaces exactly the bytes of the transfer, whatever lies behind the data,
      exactly when the transfer starts on a block or stays inside one. */
  lemma WriteCorrectIff(bytes: seq<nat>, bs: nat, offset: nat, size: nat)
    requires offset + size <= |bytes|
    ensures (forall data: seq<nat> | |data| >= size ::
               Written(bytes, bs, offset, data, size) ==
               Some(bytes[..offset] + data[..size] + bytes[offset + size..]))
            <==> bs == 0 || offset % bs == 0 || offset % bs + size <= bs
  {
    if !Contained(bs, offset, size) {
      var data: seq<nat> := seq(size, _ => 0);
      assert Written(bytes, bs, offset, data, size) == None;
    }
  }

  lemma WrittenSlice(bytes: seq<nat>, offset: nat, data: seq<nat>, at: nat, n: nat)
    requires offset + |data| <= |bytes| && at + n <= |bytes| && (at + n <= offset || offset + |data| <= at)
    ensures var w := Put(bytes, offset, data);
            |w| == |bytes| && Piece(w, offset, |data|) == data && Piece(w, at, n) == Piece(bytes, at, n)
  {
  }

  lemma ReadUnchanged(bytes: seq<nat>, w: seq<nat>, bs: nat, at: nat, n: nat, buf: seq<nat>)
    requires |w| == |bytes| && at + n <= |bytes| && n <= |buf| && Piece(w, at, n) == Piece(bytes, at, n)
    ensures ReadInto(w, bs, at, n, buf) == ReadInto(bytes, bs, at, n, buf)
  {
    if !Contained(bs, at, n) && n >= bs && n % bs >= at % bs {
      ShortBy(bs, at, n);
      var m := n - 2 * (at % bs);
      SubPiece(w, at, n, 0, m);
      SubPiece(bytes, at, n, 0, m);
    }
  }

  /** What was written is read back, and a read elsewhere is what it was. */
  lemma ReadAfterWrite(bytes: seq<nat>, bs: nat, offset: nat, data: seq<nat>, size: nat, buf: seq<nat>, at: nat,
                       n: nat, buf2: seq<nat>)
    requires offset + size <= |bytes| && size <= |data| && size == |buf| && Contained(bs, offset, size)
    requires at + n <= |bytes| && n <= |buf2| && (at + n <= offset || offset + size <= at)
    ensures var w := Written(bytes, bs, offset, data, size);
            && w.Some? && |w.value| == |bytes|
            && ReadInto(w.value, bs, offset, size, buf) == Some(data[..size])
            && ReadInto(w.value, bs, at, n, buf2) == ReadInto(bytes, bs, at, n, buf2)
  {
    var w := Written(bytes, bs, offset, data, size).value;
    WrittenSlice(bytes, offset, data[..size], at, n);
    assert Put(buf, 0, data[..size]) == data[..size];
    ReadUnchanged(bytes, w, bs, at, n, buf2);
  }

  /** What becomes of any other read: it overruns its memory when it is shorter than a block,
      or when its last part is shorter than the offset in the block, and otherwise leaves
      twice that offset of the buffer as it was. */
  lemma ReadOtherwise(bytes: seq<nat>, bs: nat, offset: nat, size: nat, buf: seq<nat>, k: nat)
    requires offset + size <= |bytes| && size <= |buf| && k < |buf|
    requires bs > 0 && offset % bs > 0 && offset % bs + size > bs
    ensures var r := ReadInto(bytes, bs, offset, size, buf);
            && (r.None? <==> size < bs || size % bs < offset % bs)
            && (r.Some? ==>
                  && |r.value| == |buf|
                  && r.value[k] == if k + 2 * (offset % bs) < size then bytes[offset + k] else buf[k])
  {
    if size >= bs && size % bs >= offset % bs { ShortBy(bs, offset, size); }
  }

  /** And of any other write: behind the first block it takes the data from as much further on
      as the offset in the block, which overruns the data when there is not as much behind. */
  lemma WriteOtherwise(bytes: seq<nat>, bs: nat, offset: nat, data: seq<nat>, size: nat, k: nat)
    requires offset + size <= |bytes| && size <= |data| && k < |bytes|
    requires bs > 0 && offset % bs > 0 && offset % bs + size > bs
    ensures var w, rest := Written(bytes, bs, offset, data, size), offset % bs;
            && (w.None? <==> |data| < size + rest)
            && (w.Some? ==>
                  && |w.value| == |bytes|
                  && w.value[k] == if k < offset || k >= offset + size then bytes[k]
                                   else if k - offset < bs - rest then data[k - offset] else data[k - offset + rest])
  {
  }

  /** An unaligned read of two blocks comes back short. */
  lemma ShortReadExample()
    ensures var bytes := [10, 11, 12, 13, 14, 15];
            ReadInto(bytes, 2, 1, 3, [0, 0, 0]) == Some([11, 0, 0])
  {
    var bytes: seq<nat> := [10, 11, 12, 13, 14, 15];
    assert Put([0, 0, 0], 0, Piece(bytes, 1, 1)) == [11, 0, 0];
  }

  lemma SubPiece(bytes: seq<nat>, from: nat, n: nat, a: nat, b: nat)
    requires from + n <= |bytes| && a <= b <= n
    ensures Piece(bytes, from, n)[a..b] == Piece(bytes, from + a, b - a)
  {
    var l, r := Piece(bytes, from, n)[a..b], Piece(bytes, from + a, b - a);
    forall k | 0 <= k < |l| ensures l[k] == r[k] {
      assert l[k] == Piece(bytes, from, n)[a + k] == bytes[from + a + k];
    }
  }

  /** An unaligned write of two blocks leaves out a byte of the data and takes one from
      behind it; with nothing behind it, it reads outside. */
  lemma ShiftedWriteExample()
    ensures Written([0, 0, 0, 0], 2, 1, [1, 2, 3, 9], 3) == Some([0, 1, 3, 9])
    ensures Written([0, 0, 0, 0], 2, 1, [1, 2, 3], 3) == None
  {
    var data: seq<nat> := [1, 2, 3, 9];
    var bytes: seq<nat> := [0, 0, 0, 0];
    assert data[..1] + data[2..4] == [1, 3, 9];
    assert Put(bytes, 1, [1, 3, 9]) == [0, 1, 3, 9];
  }

  /** `out` is `buf` with `n` bytes of the disk at `at`. */
  ghost predicate Filled(out: seq<nat>, buf: seq<nat>, at: nat, bytes: seq<nat>, from: nat, n: nat) {
    && from + n <= |bytes| && at + n <= |buf| && |out| == |buf|
    && forall k: nat | k < |out| :: out[k] == if at <= k < at + n then bytes[from + (k - at)] else buf[k]
  }

  lemma FilledIsPut(out: seq<nat>, buf: seq<nat>, at: nat, bytes: seq<nat>, from: nat, n: nat)
    requires from + n <= |bytes| && at + n <= |buf|
    ensures Filled(out, buf, at, bytes, from, n) <==> out == Put(buf, at, Piece(bytes, from, n))
  {
    if Filled(out, buf, at, bytes, from, n) { assert out == Put(buf, at, Piece(bytes, from, n)); }
  }

  /** Neighbouring pieces put into a buffer one after the other are one piece. */
  lemma FilledNext(out: seq<nat>, buf: seq<nat>, at: nat, bytes: seq<nat>, from: nat, n: nat, out2: seq<nat>, m: nat)
    requires Filled(out, buf, at, bytes, from, n) && Filled(out2, out, at + n, bytes, from + n, m)
    ensures Filled(out2, buf, at, bytes, from, n + m)
  {
  }

  lemma ReadIntoWhole(bytes: seq<nat>, bs: nat, offset: nat, size: nat, buf: seq<nat>, out: seq<nat>)
    requires Filled(out, buf, 0, bytes, offset, size) && Contained(bs, offset, size)
    ensures ReadInto(bytes, bs, offset, size, buf) == Some(out)
  {
    FilledIsPut(out, buf, 0, bytes, offset, size);
  }

  lemma ReadIntoShort(bytes: seq<nat>, bs: nat, offset: nat, size: nat, buf: seq<nat>, out: seq<nat>)
    requires offset + size <= |bytes| && size <= |buf| && !Contained(bs, offset, size)
    requires size >= bs && size % bs >= offset % bs && 2 * (offset % bs) <= size
    requires Filled(out, buf, 0, bytes, offset, size - 2 * (offset % bs))
    ensures ReadInto(bytes, bs, offset, size, buf) == Some(out)
  {
    FilledIsPut(out, buf, 0, bytes, offset, size - 2 * (offset % bs));
  }

  /** A block that was patched is a disk that was patched. */
  lemma Patched(bytes: seq<nat>, start: nat, bs: nat, rest: nat, data: seq<nat>, from: nat, n: nat,
                block: seq<nat>, out: seq<nat>)
    requires start + bs <= |bytes| && Filled(block, Piece(bytes, start, bs), rest, data, from, n)
    requires Filled(out, bytes, start, block, 0, bs)
    ensures Filled(out, bytes, start + rest, data, from, n)
  {
    forall k: nat | k < |out|
      ensures out[k] == if start + rest <= k < start + rest + n then data[from + (k - (start + rest))] else bytes[k]
    {
      if start <= k < start + bs {
        var j := k - start;
        assert out[k] == block[j];
        assert block[j] == if rest <= j < rest + n then data[from + (j - rest)] else Piece(bytes, start, bs)[j];
      }
    }
  }

  lemma PatchedPut(bytes: seq<nat>, start: nat, bs: nat, rest: nat, data: seq<nat>, from: nat, n: nat,
                   block: seq<nat>, out: seq<nat>)
    requires start + bs <= |bytes| && rest + n <= bs && from + n <= |data|
    requires block == Put(Piece(bytes, start, bs), rest, data[from..from + n])
    requires |block| == bs && out == Put(bytes, start, block)
    ensures Filled(out, bytes, start + rest, data, from, n)
  {
    FilledIsPut(block, Piece(bytes, start, bs), rest, data, from, n);
    assert Piece(block, 0, bs) == block;
    FilledIsPut(out, bytes, start, block, 0, bs);
    Patched(bytes, start, bs, rest, data, from, n, block, out);
  }

  lemma WrittenWhole(bytes: seq<nat>, bytes': seq<nat>, bs: nat, offset: nat, data: seq<nat>, size: nat)
    requires Filled(bytes', bytes, offset, data, 0, size) && Contained(bs, offset, size)
    ensures Written(bytes, bs, offset, data, size) == Some(bytes')
  {
    FilledIsPut(bytes', bytes, offset, data, 0, size);
  }

  lemma WrittenShifted(bytes: seq<nat>, head: seq<nat>, bytes': seq<nat>, bs: nat, offset: nat, data: seq<nat>,
                       size: nat)
    requires offset + size <= |bytes| && size <= |data| && !Contained(bs, offset, size)
    requires size + offset % bs <= |data|
    requires Filled(head, bytes, offset, data, 0, bs - offset % bs)
    requires Filled(bytes', head, offset + (bs - offset % bs), data, bs, size - (bs - offset % bs))
    ensures Written(bytes, bs, offset, data, size) == Some(bytes')
  {
    var rest := offset % bs;
    var w := Put(bytes, offset, data[..bs - rest] + data[bs..size + rest]);
    assert |w| == |bytes'|;
    forall k | 0 <= k < |w| ensures w[k] == bytes'[k] {
      assert w[k] == if offset <= k < offset + (bs - rest) then data[k - offset]
                     else if offset + (bs - rest) <= k < offset + size then data[bs + (k - (offset + (bs - rest)))]
                     else bytes[k];
    }
    assert w == bytes';
  }

  /** disk_write counts the blocks behind the first, and the bytes behind those, right. */
  lemma WriteArithmetic(bs: nat, s: nat, size: nat)
    requires 0 < bs && s < bs
    ensures var e := if s != 0 && bs - s > size then 0 else (size + s) % bs;
            && e <= size && e < bs
            && (s == 0 ==> size == Start((size - e) / bs, bs) + e)
            && (s != 0 && s + size > bs ==> size + s == bs + Start((size - e) / bs, bs) + e)
  {
    Whole(size + s, bs);
    var q, e := (size + s) / bs, (size + s) % bs;
    if s == 0 {
      DivideBack(q, 0, bs, size - e);
    } else if s + size >= bs {
      StartMonotone(1, q, bs);
      DivideBack(q - 1, bs - s, bs, size - e);
    }
  }

  /** Subtraction of 32-bit unsigned numbers. */
  method Subtract(a: nat, b: nat) returns (r: nat)
    requires a < 0x1_0000_0000 && b < 0x1_0000_0000
    ensures r == if a >= b then a - b else 0x1_0000_0000 - (b - a)
  {
    r := U32(a - b);
  }

  class BlockDevice {
    const blockSize: nat
    ghost const blocks: nat
    var bytes: seq<nat>

    ghost predicate Valid()
      reads this
    {
      blockSize < 0x8000_0000 && |bytes| <= 0x1_0000_0000 && (blockSize > 0 ==> |bytes| == Start(blocks, blockSize))
    }

    constructor (blockSize: nat, ghost blocks: nat, bytes: seq<nat>)
      requires blockSize < 0x8000_0000 && |bytes| <= 0x1_0000_0000
      requires blockSize > 0 ==> |bytes| == blocks * blockSize
      ensures Valid() && this.blockSize == blockSize && this.bytes == bytes
    {
      this.blockSize, this.blocks, this.bytes := blockSize, blocks, bytes;
      StartIsProduct(blocks, blockSize);
    }

    method Span(count: nat) returns (n: nat)
      ensures n == Start(count, blockSize)
    {
      StartIsProduct(count, blockSize);
      n := count * blockSize;
    }

    /** The driver's read of `count` blocks. */
    method ReadBlocks(lba: nat, count: nat) returns (r: seq<nat>)
      requires Start(lba, blockSize) + Start(count, blockSize) <= |bytes|
      ensures r == Piece(bytes, Start(lba, blockSize), Start(count, blockSize))
    {
      StartIsProduct(lba, blockSize);
      StartIsProduct(count, blockSize);
      r := bytes[lba * blockSize..lba * blockSize + count * blockSize];
    }

    /** The driver's write of `count` blocks. */
    method WriteBlocks(lba: nat, data: seq<nat>, count: nat)
      requires |data| == Start(count, blockSize) && Start(lba, blockSize) + |data| <= |bytes|
      modifies this
      ensures bytes == Put(old(bytes), Start(lba, blockSize), data)
    {
      StartIsProduct(lba, blockSize);
      bytes := bytes[..lba * blockSize] + data + bytes[lba * blockSize + |data|..];
    }

    /** The driver's read of the block that a byte of the disk is in. */
    method ReadBlock(lba: nat) returns (tmp: seq<nat>)
      requires Valid() && blockSize > 0 && Start(lba, blockSize) < |bytes|
      ensures Start(lba, blockSize) + blockSize <= |bytes|
      ensures tmp == Piece(bytes, Start(lba, blockSize), blockSize)
    {
      InBlocks(blocks, blockSize, lba);
      assert Start(1, blockSize) == blockSize;
      tmp := ReadBlocks(lba, 1);
    }

    /** The first part of disk_read, for an offset inside a block: `n` bytes of that block. */
    method ReadHead(lba: nat, rest: nat, buf: seq<nat>, n: nat) returns (ok: bool, out: seq<nat>)
      requires Valid() && 0 < rest < blockSize && Start(lba, blockSize) + rest <= |bytes| && n <= |buf|
      ensures ok == (rest + n <= blockSize) && Start(lba, blockSize) + blockSize <= |bytes|
      ensures ok ==> Filled(out, buf, 0, bytes, Start(lba, blockSize) + rest, n)
    {
      var tmp := ReadBlock(lba);
      if rest + n > blockSize { return false, buf; }
      SubPiece(bytes, Start(lba, blockSize), blockSize, rest, rest + n);
      ok, out := true, Put(buf, 0, tmp[rest..rest + n]);
      FilledIsPut(out, buf, 0, bytes, Start(lba, blockSize) + rest, n);
    }

    /** The main part of disk_read: `count` blocks. */
    method ReadMain(lba: nat, count: nat, buf: seq<nat>, at: nat) returns (out: seq<nat>)
      requires Start(lba, blockSize) + Start(count, blockSize) <= |bytes| && at + Start(count, blockSize) <= |buf|
      ensures Filled(out, buf, at, bytes, Start(lba, blockSize), Start(count, blockSize)) && |out| == |buf|
    {
      out := buf;
      if count != 0 {
        var main := ReadBlocks(lba, count);
        out := Put(buf, at, main);
        FilledIsPut(out, buf, at, bytes, Start(lba, blockSize), |main|);
      }
    }

    /** The last part of disk_read: `rest` bytes of a block. */
    method ReadTail(lba: nat, rest: nat, buf: seq<nat>, at: nat) returns (ok: bool, out: seq<nat>)
      requires Valid() && blockSize > 0 && Start(lba, blockSize) < |bytes|
      requires rest <= blockSize ==> at + rest <= |buf|
      ensures ok == (rest <= blockSize)
      ensures ok ==> Filled(out, buf, at, bytes, Start(lba, blockSize), rest)
    {
      var tmp := ReadBlock(lba);
      if rest > blockSize { return false, buf; }
      SubPiece(bytes, Start(lba, blockSize), blockSize, 0, rest);
      ok, out := true, Put(buf, at, tmp[0..rest]);
      FilledIsPut(out, buf, at, bytes, Start(lba, blockSize), rest);
    }

    /** The part of disk_read after the first block: `count` blocks, then `rest` bytes. */
    method ReadOn(lba: nat, count: nat, rest: nat, buf: seq<nat>, at: nat) returns (ok: bool, out: seq<nat>)
      requires Valid() && blockSize > 0
      requires Start(lba, blockSize) + Start(count, blockSize) + (if rest == 0 then 0 else 1) <= |bytes|
      requires at + Start(count, blockSize) <= |buf|
      requires rest <= blockSize ==> at + Start(count, blockSize) + rest <= |buf|
      ensures ok == (rest <= blockSize)
      ensures ok ==> Filled(out, buf, at, bytes, Start(lba, blockSize), Start(count, blockSize) + rest)
    {
      out := ReadMain(lba, count, buf, at);
      ok := true;
      if rest != 0 {
        StartAdds(lba, count, blockSize);
        var span := Span(count);
        ghost var main := out;
        ok, out := ReadTail(lba + count, rest, out, at + span);
        if ok { FilledNext(main, buf, at, bytes, Start(lba, blockSize), span, out, rest); }
      }
    }

    /** disk_read across blocks from inside one. */
    method ReadUnaligned(lba: nat, lRest: nat, count: nat, cRest: nat, buf: seq<nat>, ghost offset: nat,
                         ghost size: nat)
      returns (ok: bool, out: seq<nat>)
      requires Valid() && 0 < lRest < blockSize && cRest < blockSize && count >= 1
      requires offset == Start(lba, blockSize) + lRest && size == Start(count, blockSize) + cRest
      requires offset + size <= |bytes| && size <= |buf|
      ensures ok == (lRest <= cRest)
      ensures ok ==> 2 * lRest <= size && Filled(out, buf, 0, bytes, offset, size - 2 * lRest)
    {
      var lSize := blockSize - lRest;
      var rest := Subtract(cRest, lRest);
      ok, out := ReadHead(lba, lRest, buf, lSize);
      ghost var head := out;
      ok, out := ReadOn(lba + 1, count - 1, rest, out, lSize);
      if ok { FilledNext(head, buf, 0, bytes, offset, lSize, out, Start(count - 1, blockSize) + rest); }
    }

    /** disk_read from the start of a block. */
    method ReadAligned(lba: nat, count: nat, cRest: nat, buf: seq<nat>, ghost offset: nat, ghost size: nat)
      returns (out: seq<nat>)
      requires Valid() && cRest < blockSize
      requires offset == Start(lba, blockSize) && size == Start(count, blockSize) + cRest
      requires offset + size <= |bytes| && size <= |buf| && Contained(blockSize, offset, size)
      ensures ReadInto(bytes, blockSize, offset, size, buf) == Some(out)
    {
      var ok;
      ok, out := ReadOn(lba, count, cRest, buf, 0);
      ReadIntoWhole(bytes, blockSize, offset, size, buf, out);
    }

    /** disk_read */
    method Read(offset: nat, buf: seq<nat>, size: nat) returns (ok: bool, out: seq<nat>)
      requires Valid() && offset + size <= |bytes| && size <= |buf|
      ensures ok == ReadInto(bytes, blockSize, offset, size, buf).Some?
      ensures ok ==> ReadInto(bytes, blockSize, offset, size, buf) == Some(out)
    {
      if blockSize == 0 {
        return true, Put(buf, 0, bytes[offset..offset + size]);
      }
      var count, cRest := size / blockSize, size % blockSize;
      var lba, lRest := offset / blockSize, offset % blockSize;
      Whole(size, blockSize);
      Whole(offset, blockSize);
      if lRest == 0 {
        ok := true;
        out := ReadAligned(lba, count, cRest, buf, offset, size);
      } else if count == 0 {
        ok, out := ReadHead(lba, lRest, buf, cRest);
        if ok { ReadIntoWhole(bytes, blockSize, offset, size, buf, out); }
      } else {
        ok, out := ReadUnaligned(lba, lRest, count, cRest, buf, offset, size);
        if ok { ReadIntoShort(bytes, blockSize, offset, size, buf, out); }
      }
    }

    /** Read a block, copy `n` bytes of the data over it from `rest` on, write it back. */
    method PatchBlock(lba: nat, rest: nat, data: seq<nat>, from: nat, n: nat)
      requires Valid() && blockSize > 0 && Start(lba, blockSize) < |bytes|
      requires rest + n <= blockSize && from + n <= |data|
      modifies this
      ensures Filled(bytes, old(bytes), Start(lba, blockSize) + rest, data, from, n)
    {
      ghost var bytes0, start := bytes, Start(lba, blockSize);
      var tmp := ReadBlock(lba);
      var block := Put(tmp, rest, data[from..from + n]);
      ghost var b := blockSize;
      assert |block| == b == Start(1, blockSize);
      WriteBlocks(lba, block, 1);
      PatchedPut(bytes0, start, b, rest, data, from, n, block, bytes);
    }

    /** The main part of disk_write: `count` blocks. */
    method WriteMain(lba: nat, count: nat, data: seq<nat>, from: nat)
      requires Start(lba, blockSize) + Start(count, blockSize) <= |bytes| && from + Start(count, blockSize) <= |data|
      modifies this
      ensures Filled(bytes, old(bytes), Start(lba, blockSize), data, from, Start(count, blockSize))
    {
      if count != 0 {
        var n := Span(count);
        WriteBlocks(lba, data[from..from + n], count);
        FilledIsPut(bytes, old(bytes), Start(lba, blockSize), data, from, n);
      }
    }

    /** The part of disk_write after the first block: `count` blocks, then `rest` bytes. */
    method WriteOn(lba: nat, count: nat, rest: nat, data: seq<nat>, from: nat) returns (ok: bool)
      requires Valid() && blockSize > 0 && rest < blockSize
      requires Start(lba, blockSize) + Start(count, blockSize) + rest <= |bytes|
      modifies this
      ensures ok == (from + Start(count, blockSize) + rest <= |data|)
      ensures ok ==> Filled(bytes, old(bytes), Start(lba, blockSize), data, from, Start(count, blockSize) + rest)
    {
      var n := Span(count);
      if from + n > |data| { return false; }
      WriteMain(lba, count, data, from);
      if rest != 0 {
        if from + n + rest > |data| { return false; }
        StartAdds(lba, count, blockSize);
        ghost var main := bytes;
        PatchBlock(lba + count, 0, data, from + n, rest);
        FilledNext(main, old(bytes), Start(lba, blockSize), data, from, n, bytes, rest);
      }
      return true;
    }

    /** disk_write across blocks from inside one. */
    method WriteUnaligned(lba: nat, sRest: nat, count: nat, eRest: nat, data: seq<nat>, ghost offset: nat,
                          ghost size: nat)
      returns (ok: bool)
      requires Valid() && 0 < sRest < blockSize && eRest < blockSize
      requires offset == Start(lba, blockSize) + sRest && size + sRest == blockSize + Start(count, blockSize) + eRest
      requires offset + size <= |bytes| && size <= |data| && size > blockSize - sRest
      requires !Contained(blockSize, offset, size) && offset % blockSize == sRest
      modifies this
      ensures ok == Written(old(bytes), blockSize, offset, data, size).Some?
      ensures ok ==> Written(old(bytes), blockSize, offset, data, size) == Some(bytes)
    {
      PatchBlock(lba, sRest, data, 0, blockSize - sRest);
      ghost var head := bytes;
      ok := WriteOn(lba + 1, count, eRest, data, blockSize);
      if ok { WrittenShifted(old(bytes), head, bytes, blockSize, offset, data, size); }
    }

    /** disk_write inside one block. */
    method WriteInside(lba: nat, sRest: nat, data: seq<nat>, ghost offset: nat, size: nat)
      requires Valid() && 0 < sRest && sRest + size <= blockSize && offset == Start(lba, blockSize) + sRest
      requires offset + size <= |bytes| && size <= |data| && Contained(blockSize, offset, size)
      modifies this
      ensures Written(old(bytes), blockSize, offset, data, size) == Some(bytes)
    {
      PatchBlock(lba, sRest, data, 0, size);
      WrittenWhole(old(bytes), bytes, blockSize, offset, data, size);
    }

    /** disk_write from the start of a block. */
    method WriteAligned(lba: nat, count: nat, eRest: nat, data: seq<nat>, ghost offset: nat, ghost size: nat)
      requires Valid() && eRest < blockSize && offset == Start(lba, blockSize)
      requires size == Start(count, blockSize) + eRest
      requires offset + size <= |bytes| && size <= |data| && Contained(blockSize, offset, size)
      modifies this
      ensures Written(old(bytes), blockSize, offset, data, size) == Some(bytes)
    {
      var ok := WriteOn(lba, count, eRest, data, 0);
      WrittenWhole(old(bytes), bytes, blockSize, offset, data, size);
    }

    /** disk_write */
    method Write(offset: nat, data: seq<nat>, size: nat) returns (ok: bool)
      requires Valid() && offset + size <= |bytes| && size <= |data|
      modifies this
      ensures ok == Written(old(bytes), blockSize, offset, data, size).Some?
      ensures ok ==> Written(old(bytes), blockSize, offset, data, size) == Some(bytes)
    {
      if blockSize == 0 {
        bytes := Put(bytes, offset, data[..size]);
        return true;
      }
      var block, sRest := offset / blockSize, offset % blockSize;
      var eRest := (size + sRest) % blockSize;
      if sRest != 0 && blockSize - sRest > size { eRest := 0; }
      var count := (size - eRest) / blockSize;
      Whole(offset, blockSize);
      WriteArithmetic(blockSize, sRest, size);
      ok := true;
      if sRest == 0 {
        WriteAligned(block, count, eRest, data, offset, size);
      } else if sRest + size <= blockSize {
        WriteInside(block, sRest, data, offset, size);
      } else {
        ok := WriteUnaligned(block, sRest, count, eRest, data, offset, size);
      }
    }
  }
}
