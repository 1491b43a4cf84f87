/** Where the second extended file system keeps things, as kernel/fs/ext2/ext2.c finds them:
    the inode table, the block pointers of an inode, and the blocks of a file. */
module Ext2 {
  import opened Blocks
  import opened Disk

  // ---------------------------------------------------------------- the inode table

  /** _ext2_get_inode_offset, for an inode `index` of a group whose table starts in block
      `table`.  The arithmetic is that of Blocks; InodeOffsetFormula has the operators. */
  function InodeOffset(table: nat, index: nat, inodeSize: nat, bs: nat): nat
    requires 0 < inodeSize <= bs
  {
    Start(table + Quot(Start(index, inodeSize), bs), bs) + Start(Rest(index, Quot(bs, inodeSize)), inodeSize)
  }

  lemma InodeOffsetFormula(table: nat, index: nat, inodeSize: nat, bs: nat)
    requires 0 < inodeSize <= bs
    ensures bs / inodeSize > 0
    ensures InodeOffset(table, index, inodeSize, bs) ==
            (table + index * inodeSize / bs) * bs + index % (bs / inodeSize) * inodeSize
  {
    QuotIsDivision(bs, inodeSize);
    var r := Rest(index, Quot(bs, inodeSize));
    QuotIsDivision(index, bs / inodeSize);
    StartIsProduct(index, inodeSize);
    var q := Quot(Start(index, inodeSize), bs);
    QuotIsDivision(Start(index, inodeSize), bs);
    StartIsProduct(table + q, bs);
    StartIsProduct(r, inodeSize);
  }

  /** The slot of an inode in a table of inodes one after the other. */
  lemma InodeOffsetLaw(table: nat, index: nat, inodeSize: nat, bs: nat)
    requires 0 < inodeSize <= bs && Rest(bs, inodeSize) == 0
    ensures InodeOffset(table, index, inodeSize, bs) == Start(table, bs) + Start(index, inodeSize)
  {
    QuotRest(bs, inodeSize);
    var k := Quot(bs, inodeSize);
    var q, r := InodePlace(index, k, inodeSize, bs);
    QuotIs(q, Start(r, inodeSize), bs, Start(index, inodeSize));
    OffsetFrom(table, index, inodeSize, bs, q, r);
  }

  lemma OffsetFrom(table: nat, index: nat, inodeSize: nat, bs: nat, q: nat, r: nat)
    requires 0 < inodeSize <= bs && q == Quot(Start(index, inodeSize), bs) && r == Rest(index, Quot(bs, inodeSize))
    requires Start(index, inodeSize) == Start(q, bs) + Start(r, inodeSize)
    ensures InodeOffset(table, index, inodeSize, bs) == Start(table, bs) + Start(index, inodeSize)
  {
    StartAdds(table, q, bs);
  }

  lemma QuotIs(q: nat, r: nat, bs: nat, x: nat)
    requires r < bs && x == Start(q, bs) + r
    ensures Quot(x, bs) == q
  {
    QuotOf(q, r, bs);
  }

  /** With `k` inodes in a block, an inode is inode `r` of block `q`. */
  lemma InodePlace(index: nat, k: nat, inodeSize: nat, bs: nat) returns (q: nat, r: nat)
    requires k > 0 && bs == Start(k, inodeSize) && inodeSize > 0
    ensures r == Rest(index, k) && Start(r, inodeSize) < bs
    ensures Start(index, inodeSize) == Start(q, bs) + Start(r, inodeSize)
  {
    QuotRest(index, k);
    q, r := Quot(index, k), Rest(index, k);
    SplitIndex(q, k, r, inodeSize);
    StartNext(r, k, inodeSize);
  }

  /** Inodes `q` blocks of `k` inodes further. */
  lemma {:induction false} SplitIndex(q: nat, k: nat, r: nat, size: nat)
    ensures Start(Start(q, k) + r, size) == Start(q, Start(k, size)) + Start(r, size)
  {
    if q > 0 {
      SplitIndex(q - 1, k, r, size);
      StartAdds(k, Start(q - 1, k) + r, size);
      assert Start(q, k) + r == k + (Start(q - 1, k) + r);
    }
  }

  /** The two-part offset is the offset in the table for every inode exactly when the inode
      size divides the block size. */
  lemma InodeOffsetIff(inodeSize: nat, bs: nat)
    requires 0 < inodeSize <= bs
    ensures (forall table: nat, index: nat ::
               InodeOffset(table, index, inodeSize, bs) == Start(table, bs) + Start(index, inodeSize))
            <==> Rest(bs, inodeSize) == 0
  {
    if Rest(bs, inodeSize) == 0 {
      forall table: nat, index: nat
        ensures InodeOffset(table, index, inodeSize, bs) == Start(table, bs) + Start(index, inodeSize)
      {
        InodeOffsetLaw(table, index, inodeSize, bs);
      }
    } else {
      InodeOffsetFails(inodeSize, bs);
    }
  }

  lemma InodeOffsetFails(inodeSize: nat, bs: nat)
    requires 0 < inodeSize <= bs && Rest(bs, inodeSize) != 0
    ensures InodeOffset(0, Quot(bs, inodeSize), inodeSize, bs) == 0 < Start(Quot(bs, inodeSize), inodeSize)
  {
    QuotRest(bs, inodeSize);
    var k := Quot(bs, inodeSize);
    StartNext(0, k, inodeSize);
    QuotOf(0, Start(k, inodeSize), bs);
    QuotOf(1, 0, k);
  }

  /** The inode tables of a file system: inodes per group, their size, and the first block
      of the table of each group. */
  datatype Layout = Layout(perGroup: nat, inodeSize: nat, bs: nat, tables: seq<nat>)

  ghost predicate LayoutOk(l: Layout) {
    && l.perGroup > 0 && 0 < l.inodeSize <= l.bs && Rest(l.bs, l.inodeSize) == 0
    && forall g, h | 0 <= g < |l.tables| && 0 <= h < |l.tables| && g != h :: TablesApart(l, g, h)
  }

  predicate TablesApart(l: Layout, g: nat, h: nat)
    requires g < |l.tables| && h < |l.tables|
  {
    var length := Start(l.perGroup, l.inodeSize);
    || Start(l.tables[g], l.bs) + length <= Start(l.tables[h], l.bs)
    || Start(l.tables[h], l.bs) + length <= Start(l.tables[g], l.bs)
  }

  predicate HasInode(l: Layout, inode: nat) {
    l.perGroup > 0 && inode > 0 && Quot(inode - 1, l.perGroup) < |l.tables|
  }

  function OffsetOf(l: Layout, inode: nat): nat
    requires 0 < l.inodeSize <= l.bs && HasInode(l, inode)
  {
    InodeOffset(l.tables[Quot(inode - 1, l.perGroup)], Rest(inode - 1, l.perGroup), l.inodeSize, l.bs)
  }

  /** An inode is in the table of its group. */
  lemma InodeInTable(l: Layout, inode: nat, g: nat, a: nat) returns (offset: nat)
    requires LayoutOk(l) && HasInode(l, inode) && g == Quot(inode - 1, l.perGroup) && a == Rest(inode - 1, l.perGroup)
    ensures offset == OffsetOf(l, inode) == Start(l.tables[g], l.bs) + Start(a, l.inodeSize) && a < l.perGroup
  {
    offset := OffsetOf(l, inode);
    InodeOffsetLaw(l.tables[g], a, l.inodeSize, l.bs);
  }

  /** Slots of different tables are disjoint, ... */
  lemma SlotsApart(tg: nat, th: nat, a: nat, b: nat, n: nat, size: nat)
    requires a < n && b < n
    requires tg + Start(n, size) <= th || th + Start(n, size) <= tg
    ensures tg + Start(a, size) + size <= th + Start(b, size) || th + Start(b, size) + size <= tg + Start(a, size)
  {
    StartNext(a, n, size);
    StartNext(b, n, size);
  }

  /** ... and so are different slots of one table. */
  lemma SlotsDiffer(a: nat, b: nat, size: nat)
    requires a != b
    ensures Start(a, size) + size <= Start(b, size) || Start(b, size) + size <= Start(a, size)
  {
    if a < b { StartNext(a, b, size); } else { StartNext(b, a, size); }
  }

  lemma IndexDetermines(i: nat, j: nat, n: nat)
    requires n > 0 && i != j
    ensures Quot(i, n) != Quot(j, n) || Rest(i, n) != Rest(j, n)
  {
    QuotRest(i, n);
    QuotRest(j, n);
  }

  /** Distinct inodes are in disjoint slots. */
  lemma InodesDisjoint(l: Layout, i: nat, j: nat)
    requires LayoutOk(l) && HasInode(l, i) && HasInode(l, j) && i != j
    ensures OffsetOf(l, i) + l.inodeSize <= OffsetOf(l, j) || OffsetOf(l, j) + l.inodeSize <= OffsetOf(l, i)
  {
    var g, a := Quot(i - 1, l.perGroup), Rest(i - 1, l.perGroup);
    var h, b := Quot(j - 1, l.perGroup), Rest(j - 1, l.perGroup);
    IndexDetermines(i - 1, j - 1, l.perGroup);
    var x := InodeInTable(l, i, g, a);
    var y := InodeInTable(l, j, h, b);
    if g == h {
      SlotsDiffer(a, b, l.inodeSize);
    } else {
      assert TablesApart(l, g, h);
      SlotsApart(Start(l.tables[g], l.bs), Start(l.tables[h], l.bs), a, b, l.perGroup, l.inodeSize);
    }
  }

  // ---------------------------------------------------------------- block pointers

  const DIRECT: nat := 12

  /** A block pointer: in the inode, in the single indirect block, or in entry `b` of the
      block that entry `a` of the double indirect block points to. */
  datatype Slot = Direct(i: nat) | Single(j: nat) | Double(a: nat, b: nat) | TooLarge

  /** Which pointer _ext2_get_inode_data_offset consults, for `p` pointers in a block;
      Start(p, p) is the square of `p`. */
  function SlotOf(blk: nat, p: nat): Slot
    requires p > 0
  {
    if blk < DIRECT then Direct(blk)
    else if blk < p + DIRECT then Single(blk - DIRECT)
    else if blk < Start(p, p) + DIRECT then Double(Quot(blk - p - DIRECT, p), Rest(blk - p - DIRECT, p))
    else TooLarge
  }

  /** In the arithmetic of the code. */
  lemma SlotFormula(blk: nat, p: nat)
    requires p > 0
    ensures SlotOf(blk, p) ==
            if blk < DIRECT then Direct(blk)
            else if blk < p + DIRECT then Single(blk - DIRECT)
            else if blk < p * p + DIRECT then Double((blk - p - DIRECT) / p, (blk - p - DIRECT) % p)
            else TooLarge
  {
    StartIsProduct(p, p);
    if blk >= p + DIRECT { QuotIsDivision(blk - p - DIRECT, p); }
  }

  /** The slots there are. */
  predicate InBounds(s: Slot, p: nat) {
    match s
    case Direct(i) => i < DIRECT
    case Single(j) => j < p
    case Double(a, b) => a < p && b < p
    case TooLarge => false
  }

  /** The block of the file that a slot is for, by the on-disk format. */
  function BlockOf(s: Slot, p: nat): nat
    requires !s.TooLarge?
  {
    match s
    case Direct(i) => i
    case Single(j) => DIRECT + j
    case Double(a, b) => DIRECT + p + Start(a, p) + b
  }

  /** Every block below p * p + 12 has a slot, in bounds and the one of the format. */
  lemma SlotInBounds(blk: nat, p: nat)
    requires p > 0
    ensures blk < Start(p, p) + DIRECT <==> !SlotOf(blk, p).TooLarge?
    ensures blk < Start(p, p) + DIRECT ==> InBounds(SlotOf(blk, p), p) && BlockOf(SlotOf(blk, p), p) == blk
  {
    StartNext(0, p, p);
    if p + DIRECT <= blk < Start(p, p) + DIRECT {
      QuotRest(blk - p - DIRECT, p);
      QuotBelow(blk - p - DIRECT, p, p);
    }
  }

  lemma QuotBelow(x: nat, n: nat, p: nat)
    requires p > 0 && x < Start(n, p)
    ensures Quot(x, p) < n
  {
    QuotRest(x, p);
    if n <= Quot(x, p) { StartMonotone(n, Quot(x, p), p); }
  }

  /** Every slot is found from the block that it is for, save the last `p` slots of the
      double indirect block, which the code takes for triple indirect ones. */
  lemma SlotFoundIff(s: Slot, p: nat)
    requires p > 0 && InBounds(s, p)
    ensures SlotOf(BlockOf(s, p), p) == s <==> !(s.Double? && s.a == p - 1)
  {
    StartNext(0, p, p);
    if s.Double? {
      QuotOf(s.a, s.b, p);
      if s.a < p - 1 { StartNext(s.a, p - 1, p); }
    }
  }

  /** With blocks of 1024 bytes, block 65548 has a slot that the code does not look in. */
  lemma LastRowExample()
    ensures BlockOf(Double(255, 0), 256) == 65548 && InBounds(Double(255, 0), 256) && SlotOf(65548, 256) == TooLarge
  {
    StartIsProduct(255, 256);
    StartIsProduct(256, 256);
  }

  /** Distinct blocks have distinct slots. */
  lemma SlotsDistinct(blk: nat, blk': nat, p: nat)
    requires p > 0 && blk < blk' < Start(p, p) + DIRECT
    ensures SlotOf(blk, p) != SlotOf(blk', p)
  {
    SlotInBounds(blk, p);
    SlotInBounds(blk', p);
  }

  // ---------------------------------------------------------------- reading a file

  /** A file system in a partition of a disk. */
  datatype Filesystem = Filesystem(bs: nat, partStart: nat)

  datatype Inode = Inode(direct: seq<nat>, single: nat, double: nat)

  /** Blocks are blocks of the disk, and hold pointers of four bytes. */
  predicate FsOk(fs: Filesystem, diskBlock: nat) {
    fs.bs >= 4 && (diskBlock > 0 ==> fs.partStart % diskBlock == 0 && fs.bs % diskBlock == 0)
  }

  predicate OnDisk(bytes: seq<nat>, fs: Filesystem, n: nat) {
    fs.partStart + Start(n, fs.bs) + fs.bs <= |bytes|
  }

  function BlockAt(bytes: seq<nat>, fs: Filesystem, n: nat): (b: seq<nat>)
    requires OnDisk(bytes, fs, n)
    ensures |b| == fs.bs
  {
    Piece(bytes, fs.partStart + Start(n, fs.bs), fs.bs)
  }

  /** The four bytes of pointer `k`, little end first. */
  function PointerIn(block: seq<nat>, k: nat): nat
    requires k < |block| / 4
  {
    block[4 * k] + 0x100 * block[4 * k + 1] + 0x1_0000 * block[4 * k + 2] + 0x100_0000 * block[4 * k + 3]
  }

  /** The blocks of pointers that lead to a slot are on the disk. */
  predicate Followed(bytes: seq<nat>, fs: Filesystem, inode: Inode, s: Slot) {
    && |inode.direct| == DIRECT
    && (s.TooLarge? || InBounds(s, fs.bs / 4))
    && (s.Single? ==> OnDisk(bytes, fs, inode.single))
    && (s.Double? && inode.double != 0 ==>
          && OnDisk(bytes, fs, inode.double)
          && (PointerIn(BlockAt(bytes, fs, inode.double), s.a) != 0 ==>
                OnDisk(bytes, fs, PointerIn(BlockAt(bytes, fs, inode.double), s.a))))
  }

  /** The pointer that the code fetches for a slot, 0 when it finds none.  It looks for
      single indirect pointers without asking whether there is a block of them. */
  function Fetched(bytes: seq<nat>, fs: Filesystem, inode: Inode, s: Slot): nat
    requires Followed(bytes, fs, inode, s)
  {
    match s
    case Direct(i) => inode.direct[i]
    case Single(j) => PointerIn(BlockAt(bytes, fs, inode.single), j)
    case Double(a, b) =>
      if inode.double == 0 then 0 else
      var t := PointerIn(BlockAt(bytes, fs, inode.double), a);
      if t == 0 then 0 else PointerIn(BlockAt(bytes, fs, t), b)
    case TooLarge => 0
  }

  /** A pointer that is 0 is taken for one: it and the two behind it, which are in the block,
      are 0, as at the end of a file.  Otherwise the code guesses from the neighbours. */
  predicate NoGuess(block: seq<nat>, k: nat)
    requires k < |block| / 4
  {
    || PointerIn(block, k) != 0
    || (k + 2 < |block| / 4 && PointerIn(block, k + 1) == 0 && PointerIn(block, k + 2) == 0)
  }

  predicate NoGuessFor(bytes: seq<nat>, fs: Filesystem, inode: Inode, s: Slot)
    requires Followed(bytes, fs, inode, s)
  {
    match s
    case Single(j) => NoGuess(BlockAt(bytes, fs, inode.single), j)
    case Double(a, b) =>
      inode.double == 0 ||
      var t := PointerIn(BlockAt(bytes, fs, inode.double), a);
      t == 0 || NoGuess(BlockAt(bytes, fs, t), b)
    case _ => true
  }

  /** What the code may meet: pointers that lead nowhere, or to a block on the disk. */
  predicate Sound(bytes: seq<nat>, fs: Filesystem, inode: Inode, blk: nat) {
    fs.bs >= 4 &&
    var s := SlotOf(blk, fs.bs / 4);
    && Followed(bytes, fs, inode, s) && NoGuessFor(bytes, fs, inode, s)
    && (Fetched(bytes, fs, inode, s) != 0 ==> OnDisk(bytes, fs, Fetched(bytes, fs, inode, s)))
  }

  predicate Finds(bytes: seq<nat>, fs: Filesystem, inode: Inode, blk: nat) {
    Sound(bytes, fs, inode, blk) && Fetched(bytes, fs, inode, SlotOf(blk, fs.bs / 4)) != 0
  }

  function FoundBlock(bytes: seq<nat>, fs: Filesystem, inode: Inode, blk: nat): (b: seq<nat>)
    requires Finds(bytes, fs, inode, blk)
    ensures |b| == fs.bs
  {
    BlockAt(bytes, fs, Fetched(bytes, fs, inode, SlotOf(blk, fs.bs / 4)))
  }

  ghost predicate IsFound(bytes: seq<nat>, fs: Filesystem, inode: Inode, blk: nat, block: seq<nat>) {
    Finds(bytes, fs, inode, blk) && block == FoundBlock(bytes, fs, inode, blk)
  }

  /** The blocks that the code finds from block `start` on. */
  ghost predicate AreFound(bytes: seq<nat>, fs: Filesystem, inode: Inode, start: nat, blocks: seq<seq<nat>>) {
    forall k | 0 <= k < |blocks| :: IsFound(bytes, fs, inode, start + k, blocks[k])
  }

  lemma AreFoundNext(bytes: seq<nat>, fs: Filesystem, inode: Inode, start: nat, blocks: seq<seq<nat>>, i: nat,
                      block: seq<nat>)
    requires AreFound(bytes, fs, inode, start, blocks) && i == start + |blocks| && IsFound(bytes, fs, inode, i, block)
    ensures AreFound(bytes, fs, inode, start, blocks + [block])
  {
  }

  // ---------------------------------------------------------------- what the format says

  /** The pointer that a slot of an inode holds, 0 when there is none. */
  function Pointer(bytes: seq<nat>, fs: Filesystem, inode: Inode, s: Slot): nat
    requires Followed(bytes, fs, inode, s)
  {
    match s
    case Direct(i) => inode.direct[i]
    case Single(j) => if inode.single == 0 then 0 else PointerIn(BlockAt(bytes, fs, inode.single), j)
    case Double(a, b) =>
      if inode.double == 0 then 0 else
      var t := PointerIn(BlockAt(bytes, fs, inode.double), a);
      if t == 0 then 0 else PointerIn(BlockAt(bytes, fs, t), b)
    case TooLarge => 0
  }

  /** The code looks in block 0 for a pointer of an inode that has no single indirect block,
      and finds something there. */
  predicate MisledAt(bytes: seq<nat>, fs: Filesystem, inode: Inode, s: Slot)
    requires Followed(bytes, fs, inode, s)
  {
    s.Single? && inode.single == 0 && PointerIn(BlockAt(bytes, fs, 0), s.j) != 0
  }

  /** The code fetches the pointer of the slot exactly when it is not misled. */
  lemma FetchedIff(bytes: seq<nat>, fs: Filesystem, inode: Inode, s: Slot)
    requires Followed(bytes, fs, inode, s)
    ensures Fetched(bytes, fs, inode, s) == Pointer(bytes, fs, inode, s) <==> !MisledAt(bytes, fs, inode, s)
  {
  }

  predicate Misled(bytes: seq<nat>, fs: Filesystem, inode: Inode, blk: nat) {
    Sound(bytes, fs, inode, blk) && MisledAt(bytes, fs, inode, SlotOf(blk, fs.bs / 4))
  }

  /** So the offset the code computes is that of the slot's pointer exactly then. */
  lemma OffsetRightIff(bytes: seq<nat>, fs: Filesystem, inode: Inode, blk: nat, offset: nat)
    requires fs.bs > 0 && Sound(bytes, fs, inode, blk)
    requires offset == Start(Fetched(bytes, fs, inode, SlotOf(blk, fs.bs / 4)), fs.bs)
    ensures offset == Start(Pointer(bytes, fs, inode, SlotOf(blk, fs.bs / 4)), fs.bs) <==>
            !Misled(bytes, fs, inode, blk)
  {
    var s := SlotOf(blk, fs.bs / 4);
    var n, m := Fetched(bytes, fs, inode, s), Pointer(bytes, fs, inode, s);
    FetchedIff(bytes, fs, inode, s);
    if m < n { StartMonotone(m + 1, n, fs.bs); }
  }

  predicate HasBlock(bytes: seq<nat>, fs: Filesystem, inode: Inode, blk: nat) {
    && Sound(bytes, fs, inode, blk)
    && Pointer(bytes, fs, inode, SlotOf(blk, fs.bs / 4)) != 0
    && OnDisk(bytes, fs, Pointer(bytes, fs, inode, SlotOf(blk, fs.bs / 4)))
  }

  function FileBlock(bytes: seq<nat>, fs: Filesystem, inode: Inode, blk: nat): seq<nat>
    requires HasBlock(bytes, fs, inode, blk)
  {
    BlockAt(bytes, fs, Pointer(bytes, fs, inode, SlotOf(blk, fs.bs / 4)))
  }

  ghost predicate IsBlock(bytes: seq<nat>, fs: Filesystem, inode: Inode, blk: nat, block: seq<nat>) {
    HasBlock(bytes, fs, inode, blk) && block == FileBlock(bytes, fs, inode, blk)
  }

  /** The blocks of a file from block `start` on. */
  ghost predicate AreBlocks(bytes: seq<nat>, fs: Filesystem, inode: Inode, start: nat, blocks: seq<seq<nat>>) {
    forall k | 0 <= k < |blocks| :: IsBlock(bytes, fs, inode, start + k, blocks[k])
  }

  /** What the code finds is the block of the file, when there is one, and nothing else,
      exactly when it is not misled. */
  lemma FindsIff(bytes: seq<nat>, fs: Filesystem, inode: Inode, blk: nat)
    requires Sound(bytes, fs, inode, blk)
    ensures Finds(bytes, fs, inode, blk) == HasBlock(bytes, fs, inode, blk) <==> !Misled(bytes, fs, inode, blk)
    ensures Misled(bytes, fs, inode, blk) ==> Finds(bytes, fs, inode, blk)
  {
    FetchedIff(bytes, fs, inode, SlotOf(blk, fs.bs / 4));
  }

  lemma FoundIsBlock(bytes: seq<nat>, fs: Filesystem, inode: Inode, blk: nat, block: seq<nat>)
    requires IsFound(bytes, fs, inode, blk, block)
    ensures IsBlock(bytes, fs, inode, blk, block) <==> !Misled(bytes, fs, inode, blk)
  {
    FindsIff(bytes, fs, inode, blk);
    FetchedIff(bytes, fs, inode, SlotOf(blk, fs.bs / 4));
  }

  /** A block that is not found lies between. */
  ghost predicate StopsBefore(bytes: seq<nat>, fs: Filesystem, inode: Inode, start: nat, i: nat) {
    exists j: nat :: start <= j < i && !Finds(bytes, fs, inode, j)
  }

  /** The reading never gets to a block that misleads it. */
  ghost predicate Unmisled(bytes: seq<nat>, fs: Filesystem, inode: Inode, start: nat, count: nat) {
    forall i: nat | start <= i < start + count && Misled(bytes, fs, inode, i) ::
      StopsBefore(bytes, fs, inode, start, i)
  }

  /** What was read is the blocks of the file, up to the first that is not there. */
  ghost predicate ReadRight(bytes: seq<nat>, fs: Filesystem, inode: Inode, start: nat, count: nat,
                            blocks: seq<seq<nat>>, end: nat)
  {
    AreBlocks(bytes, fs, inode, start, blocks) && (|blocks| < count ==> !HasBlock(bytes, fs, inode, end))
  }

  /** A reading of the file was not misled. */
  lemma RightIsUnmisled(bytes: seq<nat>, fs: Filesystem, inode: Inode, start: nat, count: nat,
                        blocks: seq<seq<nat>>, end: nat)
    requires |blocks| <= count && end == start + |blocks| && AreFound(bytes, fs, inode, start, blocks)
    requires |blocks| < count ==> Sound(bytes, fs, inode, end) && !Finds(bytes, fs, inode, end)
    requires AreBlocks(bytes, fs, inode, start, blocks)
    ensures Unmisled(bytes, fs, inode, start, count)
  {
    forall j: nat | start <= j < end ensures !Misled(bytes, fs, inode, j) {
      var k := j - start;
      assert IsFound(bytes, fs, inode, start + k, blocks[k]) && IsBlock(bytes, fs, inode, start + k, blocks[k]);
      FoundIsBlock(bytes, fs, inode, j, blocks[k]);
    }
    if |blocks| < count { FindsIff(bytes, fs, inode, end); }
  }

  /** A reading that is not misled is one of the file. */
  lemma UnmisledIsRight(bytes: seq<nat>, fs: Filesystem, inode: Inode, start: nat, count: nat, blocks: seq<seq<nat>>)
    requires |blocks| <= count && AreFound(bytes, fs, inode, start, blocks)
    requires Unmisled(bytes, fs, inode, start, count)
    ensures AreBlocks(bytes, fs, inode, start, blocks)
  {
    forall k | 0 <= k < |blocks| ensures IsBlock(bytes, fs, inode, start + k, blocks[k]) {
      assert IsFound(bytes, fs, inode, start + k, blocks[k]);
      FoundReach(bytes, fs, inode, start, blocks, k);
      FoundIsBlock(bytes, fs, inode, start + k, blocks[k]);
    }
  }

  /** Exactly when ext2_read_file reads the file. */
  lemma ReadRightIff(bytes: seq<nat>, fs: Filesystem, inode: Inode, start: nat, count: nat,
                     blocks: seq<seq<nat>>, end: nat)
    requires |blocks| <= count && end == start + |blocks| && AreFound(bytes, fs, inode, start, blocks)
    requires |blocks| < count ==> Sound(bytes, fs, inode, end) && !Finds(bytes, fs, inode, end)
    ensures ReadRight(bytes, fs, inode, start, count, blocks, end) <==> Unmisled(bytes, fs, inode, start, count)
  {
    if AreBlocks(bytes, fs, inode, start, blocks) {
      RightIsUnmisled(bytes, fs, inode, start, count, blocks, end);
    }
    if Unmisled(bytes, fs, inode, start, count) { UnmisledIsRight(bytes, fs, inode, start, count, blocks); }
    if |blocks| < count { FindsIff(bytes, fs, inode, end); }
  }

  /** Up to the end of what was found, nothing stops the reading. */
  lemma FoundReach(bytes: seq<nat>, fs: Filesystem, inode: Inode, start: nat, blocks: seq<seq<nat>>, k: nat)
    requires AreFound(bytes, fs, inode, start, blocks) && k < |blocks|
    ensures !StopsBefore(bytes, fs, inode, start, start + k)
  {
    forall j: nat | start <= j < start + k ensures Finds(bytes, fs, inode, j) {
      assert IsFound(bytes, fs, inode, start + (j - start), blocks[j - start]);
    }
  }

  /** An inode with a single indirect block never misleads. */
  lemma SingleNeverMisleads(bytes: seq<nat>, fs: Filesystem, inode: Inode, start: nat, count: nat)
    requires inode.single != 0
    ensures Unmisled(bytes, fs, inode, start, count)
  {
  }

  /** On a disk whose block 0 holds something at byte 1024, where the superblock is, an empty
      inode has no block 268, and the code finds one: with blocks of 4096 bytes its pointer
      is word 256 of block 0. */
  lemma MisledExample()
    ensures var bytes, fs := seq(8192, i => if i == 1024 then 1 else 0), Filesystem(4096, 0);
            var inode := Inode(seq(DIRECT, _ => 0), 0, 0);
            && Misled(bytes, fs, inode, 268) && !HasBlock(bytes, fs, inode, 268)
            && Finds(bytes, fs, inode, 268) && FoundBlock(bytes, fs, inode, 268) == seq(4096, _ => 0)
  {
    var bytes: seq<nat> := seq(8192, i => if i == 1024 then 1 else 0);
    var fs, inode := Filesystem(4096, 0), Inode(seq(DIRECT, _ => 0), 0, 0);
    assert SlotOf(268, 1024) == Single(256);
    assert Start(0, 4096) == 0 && Start(1, 4096) == 4096;
    assert PointerIn(BlockAt(bytes, fs, 0), 256) == 1;
    assert Sound(bytes, fs, inode, 268);
    FindsIff(bytes, fs, inode, 268);
    assert BlockAt(bytes, fs, 1) == seq(4096, _ => 0);
  }

  // ---------------------------------------------------------------- down to the bytes

  /** The four bytes from `at` on are the digits of `n` to base 256, the lowest first. */
  predicate StoredAt(bytes: seq<nat>, at: nat, n: nat) {
    && n < 0x1_0000_0000 && at + 4 <= |bytes|
    && bytes[at] == n % 256 && bytes[at + 1] == n / 256 % 256
    && bytes[at + 2] == n / 0x1_0000 % 256 && bytes[at + 3] == n / 0x100_0000
  }

  lemma BytesOf(n: nat)
    ensures n % 256 + 0x100 * (n / 256 % 256) + 0x1_0000 * (n / 0x1_0000 % 256) + 0x100_0000 * (n / 0x100_0000) == n
  {
    assert n / 256 / 256 == n / 0x1_0000 && n / 0x1_0000 / 256 == n / 0x100_0000;
  }

  /** A pointer block holds in place `k` the number that its bytes are the digits of. */
  lemma PointerStored(block: seq<nat>, k: nat, n: nat)
    requires k < |block| / 4 && StoredAt(block, 4 * k, n)
    ensures PointerIn(block, k) == n
  {
    BytesOf(n);
  }

  /** Byte `i` of block `n` of the file system. */
  lemma BlockByte(bytes: seq<nat>, fs: Filesystem, n: nat, i: nat)
    requires OnDisk(bytes, fs, n) && i < fs.bs
    ensures fs.partStart + n * fs.bs + i < |bytes| && BlockAt(bytes, fs, n)[i] == bytes[fs.partStart + n * fs.bs + i]
  {
    StartIsProduct(n, fs.bs);
  }

  /** Pointer `k` of block `m` is read off the disk. */
  lemma PointerOnDisk(bytes: seq<nat>, fs: Filesystem, m: nat, k: nat, n: nat)
    requires OnDisk(bytes, fs, m) && k < fs.bs / 4 && StoredAt(bytes, fs.partStart + m * fs.bs + 4 * k, n)
    ensures PointerIn(BlockAt(bytes, fs, m), k) == n
  {
    var block := BlockAt(bytes, fs, m);
    BlockByte(bytes, fs, m, 4 * k);
    BlockByte(bytes, fs, m, 4 * k + 1);
    BlockByte(bytes, fs, m, 4 * k + 2);
    BlockByte(bytes, fs, m, 4 * k + 3);
    PointerStored(block, k, n);
  }

  /** Behind pointer block `m`, or none when that is 0, pointer `k` is `n`. */
  predicate Leads(bytes: seq<nat>, fs: Filesystem, m: nat, k: nat, n: nat) {
    if m == 0 then n == 0 else StoredAt(bytes, fs.partStart + m * fs.bs + 4 * k, n)
  }

  /** Block `blk` of a file is block `n` of the file system, or no block when that is 0: the
      first twelve pointers are in the inode, the next ones, as many as a block holds, in the
      single indirect block, and those behind them in the blocks that the double indirect
      block points to; `t` is that one of them. */
  predicate FormatSays(bytes: seq<nat>, fs: Filesystem, inode: Inode, blk: nat, t: nat, n: nat)
    requires fs.bs >= 4 && |inode.direct| == 12
  {
    var p := fs.bs / 4;
    if blk < 12 then n == inode.direct[blk]
    else if blk < 12 + p then Leads(bytes, fs, inode.single, blk - 12, n)
    else
      && Leads(bytes, fs, inode.double, (blk - 12 - p) / p, t)
      && Leads(bytes, fs, t, (blk - 12 - p) % p, n)
  }

  /** The pointer of a block is the one of the format. */
  lemma PointerOfFormat(bytes: seq<nat>, fs: Filesystem, inode: Inode, blk: nat, t: nat, n: nat)
    requires Sound(bytes, fs, inode, blk) && blk < fs.bs / 4 * (fs.bs / 4) + 12
    requires FormatSays(bytes, fs, inode, blk, t, n)
    ensures Pointer(bytes, fs, inode, SlotOf(blk, fs.bs / 4)) == n
  {
    var p := fs.bs / 4;
    SlotFormula(blk, p);
    if blk >= 12 + p {
      var a, b := (blk - p - 12) / p, (blk - p - 12) % p;
      if inode.double != 0 {
        PointerOnDisk(bytes, fs, inode.double, a, t);
        if t != 0 { PointerOnDisk(bytes, fs, t, b, n); }
      }
    } else if blk >= 12 && inode.single != 0 {
      PointerOnDisk(bytes, fs, inode.single, blk - 12, n);
    }
  }

  /** So a file has a block exactly when the format gives it a pointer. */
  lemma HasBlockIff(bytes: seq<nat>, fs: Filesystem, inode: Inode, blk: nat, t: nat, n: nat)
    requires Sound(bytes, fs, inode, blk) && blk < fs.bs / 4 * (fs.bs / 4) + 12
    requires FormatSays(bytes, fs, inode, blk, t, n)
    ensures HasBlock(bytes, fs, inode, blk) <==> n != 0
  {
    PointerOfFormat(bytes, fs, inode, blk, t, n);
    FetchedIff(bytes, fs, inode, SlotOf(blk, fs.bs / 4));
  }

  // ---------------------------------------------------------------- blocks in a row

  function Flatten(blocks: seq<seq<nat>>): seq<nat> {
    if blocks == [] then [] else Flatten(blocks[..|blocks| - 1]) + blocks[|blocks| - 1]
  }

  lemma FlattenSnoc(blocks: seq<seq<nat>>, block: seq<nat>)
    ensures Flatten(blocks + [block]) == Flatten(blocks) + block
  {
    assert (blocks + [block])[..|blocks|] == blocks;
  }

  /** Byte k * bs + r of blocks one after the other is byte r of block k. */
  lemma {:induction false} FlattenByte(blocks: seq<seq<nat>>, bs: nat, k: nat, r: nat)
    requires (forall b | b in blocks :: |b| == bs) && k < |blocks| && r < bs
    ensures |Flatten(blocks)| == Start(|blocks|, bs) && Start(k, bs) + r < |Flatten(blocks)|
    ensures Flatten(blocks)[Start(k, bs) + r] == blocks[k][r]
  {
    var init := blocks[..|blocks| - 1];
    FlattenLength(blocks, bs);
    FlattenLength(init, bs);
    StartNext(k, |blocks|, bs);
    if k < |init| { FlattenByte(init, bs, k, r); }
  }

  lemma {:induction false} FlattenLength(blocks: seq<seq<nat>>, bs: nat)
    requires forall b | b in blocks :: |b| == bs
    ensures |Flatten(blocks)| == Start(|blocks|, bs)
  {
    if blocks != [] { FlattenLength(blocks[..|blocks| - 1], bs); }
  }

  /** Whole blocks of the file system are whole blocks of the disk. */
  lemma BlocksContained(fs: Filesystem, diskBlock: nat, n: nat)
    requires FsOk(fs, diskBlock)
    ensures Contained(diskBlock, fs.partStart + Start(n, fs.bs), fs.bs)
  {
    if diskBlock > 0 {
      StartAligned(n, fs.bs, diskBlock);
      AddMod(fs.partStart, Start(n, fs.bs), diskBlock);
    }
  }

  lemma WholeBuffer(buf: seq<nat>, piece: seq<nat>)
    requires |buf| == |piece|
    ensures Put(buf, 0, piece) == piece
  {
  }

  /** ext2_disk_read of a block's bytes. */
  method ReadAt(disk: BlockDevice, fs: Filesystem, offset: nat, ghost n: nat) returns (ok: bool, block: seq<nat>)
    requires disk.Valid() && FsOk(fs, disk.blockSize) && OnDisk(disk.bytes, fs, n) && offset == Start(n, fs.bs)
    ensures ok && block == BlockAt(disk.bytes, fs, n)
  {
    BlocksContained(fs, disk.blockSize, n);
    var buf: seq<nat> := seq(fs.bs, _ => 0);
    ok, block := disk.Read(offset + fs.partStart, buf, fs.bs);
    WholeBuffer(buf, BlockAt(disk.bytes, fs, n));
  }

  /** ext2_disk_read of a block. */
  method ReadFsBlock(disk: BlockDevice, fs: Filesystem, n: nat) returns (block: seq<nat>)
    requires disk.Valid() && FsOk(fs, disk.blockSize) && OnDisk(disk.bytes, fs, n)
    ensures block == BlockAt(disk.bytes, fs, n)
  {
    StartIsProduct(n, fs.bs);
    var ok;
    ok, block := ReadAt(disk, fs, n * fs.bs, n);
  }

  /** handle_indirect_bp, where it does not guess. */
  method HandleIndirectBp(disk: BlockDevice, fs: Filesystem, index: nat, k: nat) returns (offset: nat)
    requires disk.Valid() && FsOk(fs, disk.blockSize) && OnDisk(disk.bytes, fs, index) && k < fs.bs / 4
    requires NoGuess(BlockAt(disk.bytes, fs, index), k)
    ensures offset == Start(PointerIn(BlockAt(disk.bytes, fs, index), k), fs.bs)
  {
    var block := ReadFsBlock(disk, fs, index);
    offset := Offset(PointerIn(block, k), fs.bs);
  }

  method Offset(block: nat, bs: nat) returns (offset: nat)
    ensures offset == Start(block, bs)
  {
    StartIsProduct(block, bs);
    offset := block * bs;
  }

  /** _ext2_get_inode_data_offset, for a pointer behind the double indirect block. */
  method DoubleOffset(disk: BlockDevice, fs: Filesystem, inode: Inode, a: nat, b: nat) returns (offset: nat)
    requires disk.Valid() && FsOk(fs, disk.blockSize) && Followed(disk.bytes, fs, inode, Double(a, b))
    requires NoGuessFor(disk.bytes, fs, inode, Double(a, b))
    ensures offset == Start(Fetched(disk.bytes, fs, inode, Double(a, b)), fs.bs)
  {
    if inode.double == 0 { return 0; }
    var block := ReadFsBlock(disk, fs, inode.double);
    var t := PointerIn(block, a);
    if t == 0 { return 0; }
    offset := HandleIndirectBp(disk, fs, t, b);
  }

  /** _ext2_get_inode_data_offset */
  method DataOffset(disk: BlockDevice, fs: Filesystem, inode: Inode, blk: nat) returns (offset: nat)
    requires disk.Valid() && FsOk(fs, disk.blockSize) && Sound(disk.bytes, fs, inode, blk)
    ensures offset == Start(Fetched(disk.bytes, fs, inode, SlotOf(blk, fs.bs / 4)), fs.bs)
  {
    var p := fs.bs / 4;
    SlotFormula(blk, p);
    if blk < DIRECT {
      offset := Offset(inode.direct[blk], fs.bs);
    } else if blk < p + DIRECT {
      offset := HandleIndirectBp(disk, fs, inode.single, blk - DIRECT);
    } else if blk < p * p + DIRECT {
      var a, b := (blk - p - DIRECT) / p, (blk - p - DIRECT) % p;
      offset := DoubleOffset(disk, fs, inode, a, b);
    } else {
      return 0;
    }
  }

  /** _ext2_read_inode_block: the block, and whether there is one. */
  method ReadInodeBlock(disk: BlockDevice, fs: Filesystem, inode: Inode, blk: nat) returns (ok: bool, block: seq<nat>)
    requires disk.Valid() && FsOk(fs, disk.blockSize) && Sound(disk.bytes, fs, inode, blk)
    ensures ok == Finds(disk.bytes, fs, inode, blk)
    ensures ok ==> IsFound(disk.bytes, fs, inode, blk, block) && |block| == fs.bs
  {
    var offset := DataOffset(disk, fs, inode, blk);
    ghost var n := Fetched(disk.bytes, fs, inode, SlotOf(blk, fs.bs / 4));
    if n > 0 { StartNext(0, n, fs.bs); }
    if offset == 0 { return false, []; }
    ok, block := ReadAt(disk, fs, offset, n);
  }

  /** The buffer starts with the blocks and is the same behind. */
  ghost predicate Holds(out: seq<nat>, blocks: seq<seq<nat>>, buf: seq<nat>, at: nat) {
    at == |Flatten(blocks)| <= |buf| && out == Flatten(blocks) + buf[at..]
  }

  lemma HoldsNext(out: seq<nat>, blocks: seq<seq<nat>>, buf: seq<nat>, at: nat, block: seq<nat>)
    requires Holds(out, blocks, buf, at) && at + |block| <= |buf|
    ensures |out| == |buf| && Holds(Put(out, at, block), blocks + [block], buf, at + |block|)
  {
    FlattenSnoc(blocks, block);
  }

  /** What a reading of the file leaves in the buffer, byte by byte: byte `k * bs + r` is
      byte `r` of the block of the disk that the format has for block `start + k`. */
  lemma FileByte(bytes: seq<nat>, fs: Filesystem, inode: Inode, start: nat, blocks: seq<seq<nat>>, out: seq<nat>,
                 buf: seq<nat>, k: nat, r: nat, t: nat, n: nat, at: nat, from: nat)
    requires AreBlocks(bytes, fs, inode, start, blocks) && Holds(out, blocks, buf, Start(|blocks|, fs.bs))
    requires k < |blocks| && r < fs.bs && fs.bs >= 4 && |inode.direct| == 12
    requires start + k < fs.bs / 4 * (fs.bs / 4) + 12 && FormatSays(bytes, fs, inode, start + k, t, n)
    requires at == k * fs.bs + r && from == fs.partStart + n * fs.bs + r
    ensures at < |out| && from < |bytes| && out[at] == bytes[from]
  {
    assert IsBlock(bytes, fs, inode, start + k, blocks[k]);
    PointerOfFormat(bytes, fs, inode, start + k, t, n);
    BlockByte(bytes, fs, n, r);
    BlockLengths(bytes, fs, inode, start, blocks);
    FlattenByte(blocks, fs.bs, k, r);
    StartIsProduct(k, fs.bs);
  }

  lemma BlockLengths(bytes: seq<nat>, fs: Filesystem, inode: Inode, start: nat, blocks: seq<seq<nat>>)
    requires AreBlocks(bytes, fs, inode, start, blocks)
    ensures forall b | b in blocks :: |b| == fs.bs
  {
    forall b | b in blocks ensures |b| == fs.bs {
      var k :| 0 <= k < |blocks| && blocks[k] == b;
      assert IsBlock(bytes, fs, inode, start + k, blocks[k]);
    }
  }

  /** One round of ext2_read_file. */
  method ReadOneBlock(disk: BlockDevice, fs: Filesystem, inode: Inode, i: nat, at: nat, buf: seq<nat>, out: seq<nat>,
                      ghost bytes: seq<nat>, ghost start: nat, ghost blocks: seq<seq<nat>>)
    returns (ok: bool, out': seq<nat>, ghost blocks': seq<seq<nat>>)
    requires disk.Valid() && disk.bytes == bytes
    requires FsOk(fs, disk.blockSize) && Sound(bytes, fs, inode, i) && i == start + |blocks|
    requires AreFound(bytes, fs, inode, start, blocks) && Holds(out, blocks, buf, at) && at + fs.bs <= |buf|
    ensures disk.bytes == bytes
    ensures ok == Finds(bytes, fs, inode, i) && |blocks'| == |blocks| + (if ok then 1 else 0)
    ensures AreFound(bytes, fs, inode, start, blocks') && Holds(out', blocks', buf, if ok then at + fs.bs else at)
    ensures !ok ==> blocks' == blocks
  {
    var b;
    ok, b := ReadInodeBlock(disk, fs, inode, i);
    if !ok { return false, out, blocks; }
    HoldsNext(out, blocks, buf, at, b);
    AreFoundNext(bytes, fs, inode, start, blocks, i, b);
    out', blocks' := Put(out, at, b), blocks + [b];
  }

  /** The loop of ext2_read_file: what the code finds, up to the first block `end` that it does not. */
  method ReadFound(disk: BlockDevice, fs: Filesystem, inode: Inode, start: nat, count: nat, buf: seq<nat>)
    returns (n: nat, out: seq<nat>, ghost end: nat, ghost blocks: seq<seq<nat>>)
    requires disk.Valid() && FsOk(fs, disk.blockSize) && |buf| >= Start(count, fs.bs)
    requires forall i: nat | start <= i < start + count :: Sound(disk.bytes, fs, inode, i)
    ensures n == |blocks| <= count && end == start + n && (n < count ==> !Finds(disk.bytes, fs, inode, end))
    ensures AreFound(disk.bytes, fs, inode, start, blocks)
    ensures Holds(out, blocks, buf, Start(n, fs.bs))
  {
    n, out, end, blocks := 0, buf, start, [];
    ghost var bytes := disk.bytes;
    var i, at := start, 0;
    while i < start + count
      invariant disk.bytes == bytes && end == i
      invariant i == start + n && n == |blocks| <= count && at == Start(n, fs.bs)
      invariant AreFound(bytes, fs, inode, start, blocks)
      invariant Holds(out, blocks, buf, at)
    {
      StartNext(n, count, fs.bs);
      var ok;
      ok, out, blocks := ReadOneBlock(disk, fs, inode, i, at, buf, out, bytes, start, blocks);
      if !ok { return; }
      at := at + fs.bs;
      n := n + 1;
      i := i + 1;
      end := i;
    }
  }

  /** ext2_read_file: blocks of a file in order, up to the first that is not there, exactly
      when it is not misled. */
  method ReadFile(disk: BlockDevice, fs: Filesystem, inode: Inode, start: nat, count: nat, buf: seq<nat>)
    returns (n: nat, out: seq<nat>, ghost end: nat, ghost blocks: seq<seq<nat>>)
    requires disk.Valid() && FsOk(fs, disk.blockSize) && |buf| >= Start(count, fs.bs)
    requires forall i: nat | start <= i < start + count :: Sound(disk.bytes, fs, inode, i)
    ensures n == |blocks| <= count && end == start + n && (n < count ==> !Finds(disk.bytes, fs, inode, end))
    ensures AreFound(disk.bytes, fs, inode, start, blocks)
    ensures Holds(out, blocks, buf, Start(n, fs.bs))
    ensures ReadRight(disk.bytes, fs, inode, start, count, blocks, end) <==>
            Unmisled(disk.bytes, fs, inode, start, count)
  {
    ghost var bytes := disk.bytes;
    n, out, end, blocks := ReadFound(disk, fs, inode, start, count, buf);
    ReadRightIff(bytes, fs, inode, start, count, blocks, end);
  }
}
