/** Two-level page tables in the 32-bit paging format of the Intel Software Developer's
    Manual, volume 3A, section 4.3, as kernel/mm/paging.c keeps them.

    Page tables live in kernel memory and are named by their address, so two directories
    can share a table; address 0 is the null pointer.  A page table remembers the slot of
    the directory it was made for; nothing reads that.  A virtual page is its address
    divided by the page size. */
module Paging {
  import opened Frames

  const ENTRIES: nat := 1024  // AMOUNT_OF_PAGES_PER_TABLE, AMOUNT_OF_PAGE_TABLES_PER_DIR

  /** page_t; a frame of 0 means that nothing is mapped. */
  datatype Page = Page(present: bool, rw: bool, user: bool, frame: nat)

  const NO_PAGE: Page := Page(false, false, false, 0)

  datatype Table = Table(slot: nat, pages: seq<Page>)

  type Tables = map<nat, Table>

  /** The table addresses of a directory. */
  type Directory = seq<nat>

  const EMPTY_TABLE: seq<Page> := seq(1024, _ => NO_PAGE)

  /** What alloc_page_table makes: a table full of zeros for slot `i`. */
  ghost predicate IsNewTable(t: Table, i: nat) {
    t.slot == i && |t.pages| == ENTRIES && forall j | 0 <= j < ENTRIES :: t.pages[j] == NO_PAGE
  }

  predicate DirOk(tables: Tables, dir: Directory) {
    && |dir| == ENTRIES
    && forall i | 0 <= i < ENTRIES && dir[i] != 0 ::
         dir[i] in tables && tables[dir[i]].slot == i && |tables[dir[i]].pages| == ENTRIES
  }

  function SetSlot(dir: Directory, i: nat, t: nat): Directory
    requires i < |dir|
  {
    dir[i := t]
  }

  /** The entry of a virtual page. */
  function Entry(tables: Tables, dir: Directory, vp: nat): Page {
    var i := vp / ENTRIES;
    if i < |dir| && dir[i] != 0 && dir[i] in tables && vp % ENTRIES < |tables[dir[i]].pages|
    then tables[dir[i]].pages[vp % ENTRIES]
    else NO_PAGE
  }

  /** virt_to_phys_from_dir */
  function Translate(tables: Tables, dir: Directory, va: nat): nat {
    var f := Entry(tables, dir, va / PAGE_SIZE).frame;
    if f == 0 then 0 else f * PAGE_SIZE + va % PAGE_SIZE
  }

  /** Translation by the format of the processor: of the 32 bits of an address the upper ten
      choose the table, the next ten the entry, and the lower twelve the byte of the frame. */
  lemma TranslateIs(tables: Tables, dir: Directory, a: nat, b: nat, o: nat)
    requires DirOk(tables, dir) && a < 1024 && b < 1024 && o < 4096
    ensures var va := a * 0x40_0000 + b * 0x1000 + o;
            if dir[a] == 0 then Translate(tables, dir, va) == 0
            else
              && dir[a] in tables && b < |tables[dir[a]].pages|
              && var f := tables[dir[a]].pages[b].frame;
              Translate(tables, dir, va) == if f == 0 then 0 else f * 0x1000 + o
  {
    SplitAddress(a, b, o, a * 0x40_0000 + b * 0x1000 + o);
  }

  lemma SplitAddress(a: nat, b: nat, o: nat, va: nat)
    requires va == a * 0x40_0000 + b * 0x1000 + o && b < 1024 && o < 4096
    ensures va / 0x1000 == a * 1024 + b && va % 0x1000 == o && va / 0x1000 / 1024 == a && va / 0x1000 % 1024 == b
  {
  }

  function PutPage(tables: Tables, t: nat, j: nat, p: Page): Tables
    requires t in tables && j < |tables[t].pages|
  {
    tables[t := tables[t].(pages := tables[t].pages[j := p])]
  }

  /** Writing one entry changes one virtual page of a directory, and of another directory
      only if it shares the table. */
  lemma PutPageEntry(tables: Tables, dir: Directory, vp: nat, p: Page, v: nat)
    requires DirOk(tables, dir) && vp / ENTRIES < ENTRIES && dir[vp / ENTRIES] != 0
    ensures var t := dir[vp / ENTRIES];
            && t in tables && vp % ENTRIES < |tables[t].pages|
            && DirOk(PutPage(tables, t, vp % ENTRIES, p), dir)
            && Entry(PutPage(tables, t, vp % ENTRIES, p), dir, v) == if v == vp then p else Entry(tables, dir, v)
  {
    var t := dir[vp / ENTRIES];
    var i := v / ENTRIES;
    assert v == i * ENTRIES + v % ENTRIES && vp == vp / ENTRIES * ENTRIES + vp % ENTRIES;
    if i < ENTRIES && dir[i] == t { assert tables[t].slot == i; }
  }

  /** A new table full of zeros maps what no table maps: nothing. */
  lemma NewTableEntry(tables: Tables, dir: Directory, i: nat, t: nat, v: nat)
    requires DirOk(tables, dir) && i < ENTRIES && dir[i] == 0 && t !in tables && t != 0
    ensures var tables' := tables[t := Table(i, EMPTY_TABLE)];
            DirOk(tables', dir[i := t]) && Entry(tables', dir[i := t], v) == Entry(tables, dir, v)
  {
  }

  /** Tables of other directories are not affected. */
  lemma OtherDir(tables: Tables, tables': Tables, dir: Directory, v: nat)
    requires DirOk(tables, dir) && forall t | t in tables :: t in tables' && tables'[t] == tables[t]
    ensures DirOk(tables', dir) && Entry(tables', dir, v) == Entry(tables, dir, v)
  {
  }

  // ---------------------------------------------------------------- mapping ranges

  /** The pages from `vp` on are mapped to the frames from `frame` on. */
  ghost predicate Mapped(tables: Tables, dir: Directory, vp: nat, frame: nat, n: nat, rw: bool, user: bool) {
    forall v: nat | vp <= v < vp + n :: Entry(tables, dir, v) == Page(true, rw, user, frame + (v - vp))
  }

  /** No page outside the range changed. */
  ghost predicate SameOutside(tables: Tables, dir: Directory, tables': Tables, dir': Directory, vp: nat, n: nat) {
    forall v: nat | !(vp <= v < vp + n) :: Entry(tables', dir', v) == Entry(tables, dir, v)
  }

  /** A mapped range translates address by address when the two addresses have the same
      offset in their page, which they have when both are aligned. */
  lemma MappedTranslates(tables: Tables, dir: Directory, v: nat, p: nat, n: nat, rw: bool, user: bool, k: nat)
    requires Mapped(tables, dir, v / PAGE_SIZE, p / PAGE_SIZE, n, rw, user)
    requires v % PAGE_SIZE == p % PAGE_SIZE && v % PAGE_SIZE + k < n * PAGE_SIZE && (p + k) / PAGE_SIZE != 0
    ensures Translate(tables, dir, v + k) == p + k
  {
    var o := v % PAGE_SIZE;
    var m := (o + k) / PAGE_SIZE;
    PageOf(v, k, m);
    PageOf(p, k, m);
    assert m < n;
    assert Entry(tables, dir, v / PAGE_SIZE + m) == Page(true, rw, user, p / PAGE_SIZE + m);
  }

  lemma PageOf(a: nat, k: nat, m: nat)
    requires m == (a % 0x1000 + k) / 0x1000
    ensures (a + k) / 0x1000 == a / 0x1000 + m && (a + k) % 0x1000 == (a % 0x1000 + k) % 0x1000
  {
  }

  lemma AddressOf(frame: nat)
    ensures frame * 0x1000 / 0x1000 == frame
  {
  }

  lemma RoundAddresses(va: nat, pa: nat, n: nat, i: nat)
    requires i == n * 0x1000
    ensures (va + i) / 0x1000 == va / 0x1000 + n && (pa + i) / 0x1000 == pa / 0x1000 + n
  {
  }

  /** The number of rounds of a loop that advances by a page. */
  function PagesFor(size: nat): nat { (size + PAGE_SIZE - 1) / PAGE_SIZE }

  /** The pages visited for a range of `size` bytes at `v` reach its last byte exactly when
      the offsets in the page allow it; for an aligned `v` that is always so. */
  lemma RangeCoveredIff(v: nat, size: nat)
    requires size > 0
    ensures v % PAGE_SIZE + (size - 1) < PagesFor(size) * PAGE_SIZE <==>
            v % PAGE_SIZE + (size - 1) % PAGE_SIZE < PAGE_SIZE
    ensures v % PAGE_SIZE == 0 ==> v % PAGE_SIZE + (size - 1) % PAGE_SIZE < PAGE_SIZE
  {
    assert PagesFor(size) == (size - 1) / PAGE_SIZE + 1;
  }

  /** Byte `k` of the virtual range is byte `k` of the physical one. */
  predicate Goes(tables: Tables, dir: Directory, v: nat, p: nat, k: nat) {
    Translate(tables, dir, v + k) == p + k
  }

  /** Exactly when mapping a range makes it translate byte by byte, for any directory it is
      mapped into: the two addresses have the same offset in their pages, and the rounds of
      the loop reach the last byte or that byte went to the right place already. */
  lemma RangeTranslatesIff(tables0: Tables, dir0: Directory, tables: Tables, dir: Directory,
                           v: nat, p: nat, size: nat, rw: bool, user: bool)
    requires size > 0 && p >= PAGE_SIZE
    requires Mapped(tables, dir, v / PAGE_SIZE, p / PAGE_SIZE, PagesFor(size), rw, user)
    requires SameOutside(tables0, dir0, tables, dir, v / PAGE_SIZE, PagesFor(size))
    ensures (forall k: nat | k < size :: Goes(tables, dir, v, p, k)) <==>
            && v % PAGE_SIZE == p % PAGE_SIZE
            && (v % PAGE_SIZE + (size - 1) % PAGE_SIZE < PAGE_SIZE || Goes(tables0, dir0, v, p, size - 1))
  {
    if v % PAGE_SIZE == p % PAGE_SIZE {
      LastByteOutside(tables0, dir0, tables, dir, v, p, size);
      if v % PAGE_SIZE + (size - 1) % PAGE_SIZE < PAGE_SIZE {
        RangeTranslates(tables, dir, v, p, size, rw, user, size - 1);
      }
      if Goes(tables, dir, v, p, size - 1) {
        forall k: nat | k < size ensures Goes(tables, dir, v, p, k) {
          EveryByteGoes(tables, dir, v, p, size, rw, user, k);
        }
      }
    } else {
      FirstByteMisses(tables, dir, v, p, PagesFor(size), rw, user);
    }
  }

  /** A range that the loop covers translates byte by byte. */
  lemma RangeTranslates(tables: Tables, dir: Directory, v: nat, p: nat, size: nat, rw: bool, user: bool, k: nat)
    requires Mapped(tables, dir, v / PAGE_SIZE, p / PAGE_SIZE, PagesFor(size), rw, user)
    requires k < size && v % PAGE_SIZE == p % PAGE_SIZE && v % PAGE_SIZE + (size - 1) % PAGE_SIZE < PAGE_SIZE
    requires (p + k) / PAGE_SIZE != 0
    ensures Goes(tables, dir, v, p, k)
  {
    RangeCoveredIff(v, size);
    MappedTranslates(tables, dir, v, p, PagesFor(size), rw, user, k);
  }

  lemma FirstByteMisses(tables: Tables, dir: Directory, v: nat, p: nat, n: nat, rw: bool, user: bool)
    requires Mapped(tables, dir, v / PAGE_SIZE, p / PAGE_SIZE, n, rw, user) && n > 0
    requires p >= PAGE_SIZE && v % PAGE_SIZE != p % PAGE_SIZE
    ensures !Goes(tables, dir, v, p, 0)
  {
    assert Entry(tables, dir, v / PAGE_SIZE).frame == p / PAGE_SIZE;
  }

  /** A last byte that the loop does not reach translates as before. */
  lemma LastByteOutside(tables0: Tables, dir0: Directory, tables: Tables, dir: Directory, v: nat, p: nat, size: nat)
    requires size > 0 && SameOutside(tables0, dir0, tables, dir, v / PAGE_SIZE, PagesFor(size))
    ensures v % PAGE_SIZE + (size - 1) % PAGE_SIZE >= PAGE_SIZE ==>
            Goes(tables, dir, v, p, size - 1) == Goes(tables0, dir0, v, p, size - 1)
  {
    RangeCoveredIff(v, size);
    if v % PAGE_SIZE + (size - 1) % PAGE_SIZE >= PAGE_SIZE {
      var m := (v % PAGE_SIZE + (size - 1)) / PAGE_SIZE;
      PageOf(v, size - 1, m);
      OutsideTranslates(tables0, dir0, tables, dir, v / PAGE_SIZE, PagesFor(size), v + (size - 1));
    }
  }

  /** If the last byte goes to the right place, so does every byte. */
  lemma EveryByteGoes(tables: Tables, dir: Directory, v: nat, p: nat, size: nat, rw: bool, user: bool, k: nat)
    requires Mapped(tables, dir, v / PAGE_SIZE, p / PAGE_SIZE, PagesFor(size), rw, user)
    requires p >= PAGE_SIZE && v % PAGE_SIZE == p % PAGE_SIZE && k < size && Goes(tables, dir, v, p, size - 1)
    ensures Goes(tables, dir, v, p, k)
  {
    var o, n := v % PAGE_SIZE, PagesFor(size);
    if o + k < n * PAGE_SIZE {
      MappedTranslates(tables, dir, v, p, n, rw, user, k);
    } else {
      PageOf(v, k, n);
      PageOf(p, k, n);
      PageOf(v, size - 1, n);
      PageOf(p, size - 1, n);
      SamePage(tables, dir, v + (size - 1), p + (size - 1), v + k, p + k);
    }
  }

  /** Translation depends on the page alone. */
  lemma SamePage(tables: Tables, dir: Directory, v: nat, p: nat, v': nat, p': nat)
    requires v / 0x1000 == v' / 0x1000 && p / 0x1000 == p' / 0x1000 != 0
    requires v' % 0x1000 == p' % 0x1000 && Translate(tables, dir, v) == p
    ensures Translate(tables, dir, v') == p'
  {
    var f := Entry(tables, dir, v / PAGE_SIZE).frame;
    assert f != 0;
    assert f == p / 0x1000;
  }

  /** Addresses of other pages translate as before. */
  lemma OutsideTranslates(tables: Tables, dir: Directory, tables': Tables, dir': Directory, vp: nat, n: nat, a: nat)
    requires SameOutside(tables, dir, tables', dir', vp, n) && !(vp <= a / PAGE_SIZE < vp + n)
    ensures Translate(tables', dir', a) == Translate(tables, dir, a)
  {
    assert Entry(tables', dir', a / PAGE_SIZE) == Entry(tables, dir, a / PAGE_SIZE);
  }

  /** Exactly when that is so in a directory that maps nothing else. */
  lemma RangeTranslatesAloneIff(tables: Tables, dir: Directory, v: nat, p: nat, size: nat, rw: bool, user: bool)
    requires size > 0 && p >= PAGE_SIZE
    requires Mapped(tables, dir, v / PAGE_SIZE, p / PAGE_SIZE, PagesFor(size), rw, user)
    requires SameOutside(map[], [], tables, dir, v / PAGE_SIZE, PagesFor(size))
    ensures (forall k: nat | k < size :: Goes(tables, dir, v, p, k)) <==>
            v % PAGE_SIZE == p % PAGE_SIZE && v % PAGE_SIZE + (size - 1) % PAGE_SIZE < PAGE_SIZE
  {
    RangeTranslatesIff(map[], [], tables, dir, v, p, size, rw, user);
    assert Translate(map[], [], v + (size - 1)) == 0;
  }

  /** One byte mapped from a page boundary to the second byte of a frame goes to the first
      byte of it, and a page mapped from its second byte on misses its last byte. */
  lemma RangeTranslatesExample(tables: Tables, dir: Directory, rw: bool, user: bool)
    requires Mapped(tables, dir, 5, 2, 1, rw, user) && SameOutside(map[], [], tables, dir, 5, 1)
    ensures Translate(tables, dir, 0x5000) == 0x2000 && !Goes(tables, dir, 0x5000, 0x2001, 0)
    ensures PagesFor(0x1000) == 1 && !Goes(tables, dir, 0x5001, 0x2001, 0xFFF)
  {
    assert Entry(tables, dir, 5) == Page(true, rw, user, 2);
    assert Entry(tables, dir, 6) == Entry(map[], [], 6);
  }

  // ---------------------------------------------------------------- other directories

  /** Two directories have the table of a page in common. */
  predicate Shares(e: Directory, d: Directory, v: nat) {
    v / ENTRIES < |e| && v / ENTRIES < |d| && e[v / ENTRIES] == d[v / ENTRIES] != 0
  }

  /** What directory `e` sees when the `n` pages from `vp` on are mapped in directory `d`:
      the new pages where the two share a table, and its own old ones everywhere else. */
  ghost predicate Sees(tables0: Tables, tables: Tables, d: Directory, e: Directory, vp: nat, n: nat) {
    forall v: nat :: Entry(tables, e, v) ==
      if vp <= v < vp + n && Shares(e, d, v) then Entry(tables, d, v) else Entry(tables0, e, v)
  }

  /** A directory got no table of `e`, and lost none. */
  ghost predicate SameSharing(d0: Directory, d: Directory, e: Directory) {
    forall v: nat :: Shares(e, d0, v) <==> Shares(e, d, v)
  }

  lemma SeesNext(t0: Tables, t1: Tables, d1: Directory, t2: Tables, d2: Directory, e: Directory, vp: nat, n: nat)
    requires Sees(t0, t1, d1, e, vp, n) && Sees(t1, t2, d2, e, vp + n, 1) && SameSharing(d1, d2, e)
    requires SameOutside(t1, d1, t2, d2, vp + n, 1)
    ensures Sees(t0, t2, d2, e, vp, n + 1)
  {
    forall v: nat ensures Entry(t2, e, v) ==
        if vp <= v < vp + (n + 1) && Shares(e, d2, v) then Entry(t2, d2, v) else Entry(t0, e, v)
    {
      assert Shares(e, d1, v) <==> Shares(e, d2, v);
      assert v != vp + n ==> Entry(t2, d2, v) == Entry(t1, d1, v);
    }
  }

  /** Writing an entry of a table is seen by the directories that have the table. */
  lemma PutPageSees(tables: Tables, d: Directory, e: Directory, vp: nat, p: Page)
    requires DirOk(tables, d) && DirOk(tables, e) && vp / ENTRIES < ENTRIES && d[vp / ENTRIES] != 0
    ensures var t := PutPage(tables, d[vp / ENTRIES], vp % ENTRIES, p); Sees(tables, t, d, e, vp, 1)
  {
    var t := PutPage(tables, d[vp / ENTRIES], vp % ENTRIES, p);
    forall v: nat
      ensures Entry(t, e, v) == if vp <= v < vp + 1 && Shares(e, d, v) then Entry(t, d, v) else Entry(tables, e, v)
    {
      if e[vp / ENTRIES] == d[vp / ENTRIES] {
        PutPageEntry(tables, e, vp, p, v);
        PutPageEntry(tables, d, vp, p, v);
      } else {
        PutElsewhere(tables, e, d[vp / ENTRIES], vp / ENTRIES, vp % ENTRIES, p, v);
      }
    }
  }

  lemma PutElsewhere(tables: Tables, e: Directory, t: nat, i: nat, j: nat, p: Page, v: nat)
    requires DirOk(tables, e) && t in tables && tables[t].slot == i && i < ENTRIES && e[i] != t && j < |tables[t].pages|
    ensures Entry(PutPage(tables, t, j, p), e, v) == Entry(tables, e, v)
  {
  }

  /** No directory but `newdir` changed or came. */
  ghost predicate OthersKept(dirs0: map<nat, Directory>, dirs: map<nat, Directory>, newdir: nat) {
    dirs.Keys == dirs0.Keys + {newdir} && forall e | e in dirs0 && e != newdir :: dirs[e] == dirs0[e]
  }

  /** What mapping pages in directory `d` does to all the others. */
  ghost predicate OthersSee(dirs0: map<nat, Directory>, t0: Tables, dirs: map<nat, Directory>, t: Tables, d: nat,
                            vp: nat, n: nat)
    requires d in dirs
  {
    OthersKept(dirs0, dirs, d) && forall e | e in dirs && e != d :: Sees(t0, t, dirs[d], dirs[e], vp, n)
  }

  lemma OthersSeeNext(dirs0: map<nat, Directory>, t0: Tables, dirs1: map<nat, Directory>, t1: Tables,
                      dirs2: map<nat, Directory>, t2: Tables, d: nat, vp: nat, n: nat, u: nat)
    requires d in dirs0 && d in dirs1 && d in dirs2 && u == vp + n
    requires OthersSee(dirs0, t0, dirs1, t1, d, vp, n) && OthersSee(dirs1, t1, dirs2, t2, d, u, 1)
    requires forall e | e in dirs2 && e != d :: SameSharing(dirs1[d], dirs2[d], dirs2[e])
    requires SameOutside(t1, dirs1[d], t2, dirs2[d], u, 1)
    ensures OthersSee(dirs0, t0, dirs2, t2, d, vp, n + 1)
  {
    forall e | e in dirs2 && e != d ensures Sees(t0, t2, dirs2[d], dirs2[e], vp, n + 1) {
      SeesNext(t0, t1, dirs1[d], t2, dirs2[d], dirs2[e], vp, n);
    }
  }

  /** A range mapped in directory `d`: its pages, all other pages, and all other directories. */
  ghost predicate RangeMapped(dirs0: map<nat, Directory>, t0: Tables, dirs: map<nat, Directory>, t: Tables, d: nat,
                              vp: nat, frame: nat, n: nat, rw: bool, user: bool)
  {
    && d in dirs0 && d in dirs
    && Mapped(t, dirs[d], vp, frame, n, rw, user)
    && SameOutside(t0, dirs0[d], t, dirs[d], vp, n)
    && OthersSee(dirs0, t0, dirs, t, d, vp, n)
  }

  lemma RangeMappedNext(dirs0: map<nat, Directory>, t0: Tables, dirs1: map<nat, Directory>, t1: Tables,
                        dirs2: map<nat, Directory>, t2: Tables, d: nat, vp: nat, frame: nat, n: nat,
                        rw: bool, user: bool, u: nat, f: nat)
    requires RangeMapped(dirs0, t0, dirs1, t1, d, vp, frame, n, rw, user) && u == vp + n && f == frame + n
    requires RangeMapped(dirs1, t1, dirs2, t2, d, u, f, 1, rw, user)
    requires forall e | e in dirs2 && e != d :: SameSharing(dirs1[d], dirs2[d], dirs2[e])
    ensures RangeMapped(dirs0, t0, dirs2, t2, d, vp, frame, n + 1, rw, user)
  {
    OthersSeeNext(dirs0, t0, dirs1, t1, dirs2, t2, d, vp, n, u);
    forall v: nat | vp <= v < vp + (n + 1) ensures Entry(t2, dirs2[d], v) == Page(true, rw, user, frame + (v - vp)) {
      if v != u { assert Entry(t2, dirs2[d], v) == Entry(t1, dirs1[d], v); }
    }
    forall v: nat | !(vp <= v < vp + (n + 1)) ensures Entry(t2, dirs2[d], v) == Entry(t0, dirs0[d], v) {
      assert Entry(t2, dirs2[d], v) == Entry(t1, dirs1[d], v);
    }
  }

  // ---------------------------------------------------------------- taken frames

  ghost predicate PagesTaken(pages: seq<Page>, free: set<nat>) {
    forall j | 0 <= j < |pages| && pages[j].present :: pages[j].frame !in free
  }

  /** No page table points a present page at a free frame. */
  ghost predicate TablesTaken(tables: Tables, free: set<nat>) {
    forall t | t in tables :: PagesTaken(tables[t].pages, free)
  }

  /** Handing out or setting a frame and entering it in a table keeps to taken frames. */
  lemma PutTaken(tables: Tables, t: nat, j: nat, p: Page, free: set<nat>)
    requires t in tables && j < |tables[t].pages| && TablesTaken(tables, free)
    ensures TablesTaken(PutPage(tables, t, j, p), free - {p.frame})
  {
    forall x | x in tables ensures PagesTaken(PutPage(tables, t, j, p)[x].pages, free - {p.frame}) {
      assert PagesTaken(tables[x].pages, free);
    }
  }

  // ---------------------------------------------------------------- physical memory

  /** The bytes of each frame; a frame without an entry was never written. */
  type Memory = map<nat, seq<nat>>

  function At(phys: Memory, frame: nat): seq<nat> { if frame in phys then phys[frame] else [] }

  // ---------------------------------------------------------------- copying an address space

  const BUFFER: nat := 0x1100  // the page of PAGE_BUFFER_LOCATION

  /** The pages of a table that are present, from entry `j` on. */
  function PresentFrom(pages: seq<Page>, j: nat): nat
    requires j <= |pages|
    decreases |pages| - j
  {
    if j == |pages| then 0 else (if pages[j].present then 1 else 0) + PresentFrom(pages, j + 1)
  }

  /** A table of the current directory that the kernel directory does not share. */
  predicate Private(cur: Directory, kern: Directory, i: nat)
    requires |cur| == |kern| == ENTRIES && i < ENTRIES
  {
    cur[i] != 0 && cur[i] != kern[i]
  }

  /** The frames that a copy takes for the tables from slot `i` on. */
  function NeedFrom(tables: Tables, cur: Directory, kern: Directory, i: nat): nat
    requires DirOk(tables, cur) && |kern| == ENTRIES && i <= ENTRIES
    decreases ENTRIES - i
  {
    if i == ENTRIES then 0
    else
      var here := if Private(cur, kern, i) then PresentFrom(tables[cur[i]].pages, 0) else 0;
      here + NeedFrom(tables, cur, kern, i + 1)
  }

  /** What a page turns into: the same flags and contents in a frame that was free. */
  ghost predicate PageCopied(p: Page, q: Page, vp: nat, m0: Memory, m: Memory, free0: set<nat>, owner: map<nat, nat>) {
    if p.present then
      && q == Page(true, p.rw, p.user, q.frame)
      && q.frame in free0 && q.frame in owner && owner[q.frame] == vp
      && At(m, q.frame) == At(m0, p.frame)
    else q == NO_PAGE
  }

  ghost predicate TableCopied(src: seq<Page>, dst: seq<Page>, i: nat, j: nat,
                              m0: Memory, m: Memory, free0: set<nat>, owner: map<nat, nat>)
  {
    && |src| == |dst| == ENTRIES && j <= ENTRIES
    && (forall k: nat | k < j :: PageCopied(src[k], dst[k], i * ENTRIES + k, m0, m, free0, owner))
    && (forall k: nat | j <= k < ENTRIES :: dst[k] == NO_PAGE)
  }

  /** What copying changes: frames, the page tables and who owns the frames handed out. */
  datatype Space = Space(tables: Tables, phys: Memory, free: set<nat>, owner: map<nat, nat>)

  /** The tables stay, apart from table `nt` (0 for none). */
  ghost predicate TablesKept(t0: Tables, t: Tables, nt: nat) {
    t.Keys == t0.Keys && forall x | x in t && x != nt :: t[x] == t0[x]
  }

  /** Only free frames are handed out and written, and none twice. */
  ghost predicate FramesKept(s0: Space, s: Space) {
    && s.free <= s0.free && s.owner.Keys !! s.free
    && (forall f | f in s0.owner :: f in s.owner && s.owner[f] == s0.owner[f])
    && (forall f: nat | f !in s0.free :: At(s.phys, f) == At(s0.phys, f))
  }

  /** What copy_page does, to frame `f`. */
  ghost function Copied(s: Space, nt: nat, j: nat, p: Page, vp: nat, f: nat): Space
    requires nt in s.tables && j < |s.tables[nt].pages|
  {
    Space(PutPage(s.tables, nt, j, Page(true, p.rw, p.user, f)), s.phys[f := At(s.phys, p.frame)],
          s.free - {f}, s.owner[f := vp])
  }

  lemma FramesKeptNext(s0: Space, s: Space, nt: nat, j: nat, p: Page, vp: nat, f: nat)
    requires nt in s.tables && j < |s.tables[nt].pages| && FramesKept(s0, s) && s.owner.Keys !! s.free && f in s.free
    ensures FramesKept(s0, Copied(s, nt, j, p, vp, f))
  {
  }

  lemma FramesKeptTrans(s0: Space, s1: Space, s2: Space)
    requires FramesKept(s0, s1) && FramesKept(s1, s2)
    ensures FramesKept(s0, s2)
  {
  }

  lemma FreeDrops(free: set<nat>, f: nat)
    requires f in free
    ensures |free - {f}| == |free| - 1
  {
  }

  /** What a slot of the directory turns into: absent, shared, or a new table. */
  ghost predicate SlotCopied(t0: Tables, cur: Directory, kern: Directory, i: nat, tables: Tables, dir: Directory,
                             m0: Memory, m: Memory, free0: set<nat>, owner: map<nat, nat>)
    requires |cur| == |kern| == |dir| == ENTRIES && i < ENTRIES
  {
    if !Private(cur, kern, i) then dir[i] == cur[i]
    else
      && dir[i] != 0 && dir[i] !in t0 && dir[i] in tables && cur[i] in t0
      && TableCopied(t0[cur[i]].pages, tables[dir[i]].pages, i, ENTRIES, m0, m, free0, owner)
  }

  /** What copying a table needs: tables for the source, the buffer and the copy, all
      different, and the buffer present. */
  ghost predicate SlotReady(tables: Tables, cur: Directory, dir: Directory, i: nat) {
    && DirOk(tables, cur) && DirOk(tables, dir)
    && i < ENTRIES && i != BUFFER / ENTRIES
    && cur[i] != 0 && cur[BUFFER / ENTRIES] != 0 && dir[i] != 0
    && dir[i] != cur[i] && dir[i] != cur[BUFFER / ENTRIES]
    && Entry(tables, cur, BUFFER).present
  }

  /** What copy_page needs besides: a page that is present, and an empty entry to fill. */
  ghost predicate CopyReady(tables: Tables, cur: Directory, dir: Directory, vp: nat) {
    && SlotReady(tables, cur, dir, vp / ENTRIES)
    && Entry(tables, cur, vp).present && Entry(tables, dir, vp) == NO_PAGE
  }

  lemma PutKeepsDir(tables: Tables, t: nat, j: nat, q: Page, dir: Directory)
    requires t in tables && j < |tables[t].pages| && DirOk(tables, dir)
    ensures DirOk(PutPage(tables, t, j, q), dir)
  {
  }

  lemma SlotStaysReady(tables: Tables, cur: Directory, dir: Directory, i: nat, j: nat, q: Page)
    requires SlotReady(tables, cur, dir, i) && j < ENTRIES
    ensures SlotReady(PutPage(tables, dir[i], j, q), cur, dir, i)
  {
    PutKeepsDir(tables, dir[i], j, q, cur);
    PutKeepsDir(tables, dir[i], j, q, dir);
  }

  lemma PageAddress(i: nat, j: nat)
    requires j < 1024
    ensures var vp := i * 1024 + j; vp * 0x1000 / 0x1000 == vp && vp / 1024 == i && vp % 1024 == j
  {
  }

  lemma CopyReadyStays(tables: Tables, cur: Directory, dir: Directory, vp: nat, q: Page)
    requires CopyReady(tables, cur, dir, vp)
    ensures var t := PutPage(tables, dir[vp / ENTRIES], vp % ENTRIES, q);
            && DirOk(t, cur) && Entry(t, cur, vp) == Entry(tables, cur, vp)
            && Entry(t, cur, BUFFER) == Entry(tables, cur, BUFFER)
  {
  }

  /** Giving an entry another frame and then its own again. */
  lemma PutBack(tables: Tables, t: nat, j: nat, p: Page)
    requires t in tables && j < |tables[t].pages|
    ensures var t1 := PutPage(tables, t, j, p);
            t in t1 && j < |t1[t].pages| && PutPage(t1, t, j, tables[t].pages[j]) == tables
  {
    var t1 := PutPage(tables, t, j, p);
    var t2 := PutPage(t1, t, j, tables[t].pages[j]);
    assert t2[t].pages == tables[t].pages;
    assert t2 == tables;
  }

  /** A page that was copied stays copied while only other frames are written. */
  lemma PageStaysCopied(p: Page, q: Page, vp: nat, m0: Memory, m: Memory, m': Memory, free0: set<nat>,
                        owner: map<nat, nat>, owner': map<nat, nat>)
    requires PageCopied(p, q, vp, m0, m, free0, owner)
    requires forall f | f in owner :: f in owner' && owner'[f] == owner[f] && At(m', f) == At(m, f)
    ensures PageCopied(p, q, vp, m0, m', free0, owner')
  {
  }

  lemma TableStaysCopied(src: seq<Page>, dst: seq<Page>, i: nat, j: nat, m0: Memory, m: Memory, m': Memory,
                         free0: set<nat>, owner: map<nat, nat>, owner': map<nat, nat>)
    requires TableCopied(src, dst, i, j, m0, m, free0, owner)
    requires forall f | f in owner :: f in owner' && owner'[f] == owner[f] && At(m', f) == At(m, f)
    ensures TableCopied(src, dst, i, j, m0, m', free0, owner')
  {
    forall k: nat | k < j ensures PageCopied(src[k], dst[k], i * ENTRIES + k, m0, m', free0, owner') {
      PageStaysCopied(src[k], dst[k], i * ENTRIES + k, m0, m, m', free0, owner, owner');
    }
  }

  /** One more page of a table is copied, to a frame nobody owns. */
  lemma PageJoinsTable(src: seq<Page>, dst: seq<Page>, i: nat, j: nat, m0: Memory, m: Memory, free0: set<nat>,
                       owner: map<nat, nat>, f: nat)
    requires TableCopied(src, dst, i, j, m0, m, free0, owner) && j < ENTRIES && src[j].present
    requires f in free0 && f !in owner && At(m, src[j].frame) == At(m0, src[j].frame)
    ensures TableCopied(src, dst[j := Page(true, src[j].rw, src[j].user, f)], i, j + 1, m0,
                        m[f := At(m, src[j].frame)], free0, owner[f := i * ENTRIES + j])
  {
    var m', owner' := m[f := At(m, src[j].frame)], owner[f := i * ENTRIES + j];
    TableStaysCopied(src, dst, i, j, m0, m, m', free0, owner, owner');
  }

  /** How far a table is copied: the first `j` entries, from state `s0` to state `s`. */
  ghost predicate TableProgress(s0: Space, s: Space, src: seq<Page>, nt: nat, i: nat, j: nat, m0: Memory,
                                free0: set<nat>)
  {
    && nt in s.tables && TablesKept(s0.tables, s.tables, nt) && FramesKept(s0, s)
    && TableCopied(src, s.tables[nt].pages, i, j, m0, s.phys, free0, s.owner)
    && |s.free| + PresentFrom(src, 0) >= |s0.free| + PresentFrom(src, j)
  }

  /** The source pages are where they were before the whole copy began. */
  ghost predicate SourceIntact(s0: Space, src: seq<Page>, m0: Memory, free0: set<nat>) {
    && s0.free <= free0
    && (forall k | 0 <= k < |src| && src[k].present :: src[k].frame !in free0)
    && (forall f: nat | f !in free0 :: At(s0.phys, f) == At(m0, f))
  }

  lemma TableProgressNext(s0: Space, s: Space, src: seq<Page>, nt: nat, i: nat, j: nat, m0: Memory, free0: set<nat>,
                          f: nat)
    requires TableProgress(s0, s, src, nt, i, j, m0, free0) && SourceIntact(s0, src, m0, free0)
    requires j < ENTRIES && src[j].present && f in s.free
    ensures TableProgress(s0, Copied(s, nt, j, src[j], i * ENTRIES + j, f), src, nt, i, j + 1, m0, free0)
  {
    FramesKeptNext(s0, s, nt, j, src[j], i * ENTRIES + j, f);
    PageJoinsTable(src, s.tables[nt].pages, i, j, m0, s.phys, free0, s.owner, f);
    FreeDrops(s.free, f);
  }

  lemma TableProgressSkip(s0: Space, s: Space, src: seq<Page>, nt: nat, i: nat, j: nat, m0: Memory, free0: set<nat>)
    requires TableProgress(s0, s, src, nt, i, j, m0, free0) && j < ENTRIES && !src[j].present
    ensures TableProgress(s0, s, src, nt, i, j + 1, m0, free0)
  {
  }

  /** There is a free frame while there are pages left to copy. */
  lemma FrameLeft(s0: Space, s: Space, src: seq<Page>, nt: nat, i: nat, j: nat, m0: Memory, free0: set<nat>)
    requires TableProgress(s0, s, src, nt, i, j, m0, free0) && j < ENTRIES && src[j].present
    requires |s0.free| >= PresentFrom(src, 0)
    ensures s.free != {}
  {
  }

  /** The frames of the present pages of a directory are taken. */
  ghost predicate InUse(tables: Tables, dir: Directory, free: set<nat>) {
    forall v: nat :: Entry(tables, dir, v).present ==> Entry(tables, dir, v).frame !in free
  }

  /** The buffer page is in a table that the kernel directory shares. */
  ghost predicate BufferShared(tables: Tables, cur: Directory, kern: Directory)
    requires |cur| == |kern| == ENTRIES
  {
    cur[BUFFER / ENTRIES] != 0 && !Private(cur, kern, BUFFER / ENTRIES) && Entry(tables, cur, BUFFER).present
  }

  /** So no directory does either. */
  lemma DirTaken(tables: Tables, dir: Directory, free: set<nat>)
    requires TablesTaken(tables, free)
    ensures InUse(tables, dir, free)
  {
    forall v: nat | Entry(tables, dir, v).present ensures Entry(tables, dir, v).frame !in free {
      assert PagesTaken(tables[dir[v / ENTRIES]].pages, free);
    }
  }

  ghost predicate TablesExtended(t0: Tables, t: Tables) {
    forall x | x in t0 :: x in t && t[x] == t0[x]
  }

  /** How far a directory is copied: the first `i` slots, from state `s0` to state `s`. */
  ghost predicate DirProgress(s0: Space, s: Space, cur: Directory, kern: Directory, dir: Directory, i: nat) {
    && DirOk(s0.tables, cur) && |kern| == |dir| == ENTRIES && i <= ENTRIES
    && TablesExtended(s0.tables, s.tables) && FramesKept(s0, s)
    && (forall k: nat | k < i :: SlotCopied(s0.tables, cur, kern, k, s.tables, dir, s0.phys, s.phys, s0.free, s.owner))
    && (forall k: nat | i <= k < ENTRIES :: dir[k] == 0)
    && |s.free| + NeedFrom(s0.tables, cur, kern, 0) >= |s0.free| + NeedFrom(s0.tables, cur, kern, i)
  }

  lemma SlotStaysCopied(s0: Space, s: Space, s': Space, cur: Directory, kern: Directory, dir: Directory, i: nat,
                        t: nat, k: nat)
    requires |cur| == |kern| == |dir| == ENTRIES && k < ENTRIES && i < ENTRIES && k != i
    requires SlotCopied(s0.tables, cur, kern, k, s.tables, dir, s0.phys, s.phys, s0.free, s.owner)
    requires s.owner.Keys !! s.free && TablesExtended(s.tables, s'.tables) && FramesKept(s, s')
    ensures SlotCopied(s0.tables, cur, kern, k, s'.tables, SetSlot(dir, i, t), s0.phys, s'.phys, s0.free, s'.owner)
  {
    if Private(cur, kern, k) {
      TableStaysCopied(s0.tables[cur[k]].pages, s.tables[dir[k]].pages, k, ENTRIES,
                       s0.phys, s.phys, s'.phys, s0.free, s.owner, s'.owner);
    }
  }

  /** One more slot is copied. */
  lemma SlotJoinsDir(s0: Space, s: Space, s': Space, cur: Directory, kern: Directory, dir: Directory, i: nat, t: nat)
    requires DirProgress(s0, s, cur, kern, dir, i) && i < ENTRIES
    requires TablesExtended(s.tables, s'.tables) && FramesKept(s, s')
    requires SlotCopied(s0.tables, cur, kern, i, s'.tables, SetSlot(dir, i, t), s0.phys, s'.phys, s0.free, s'.owner)
    requires |s'.free| + (if Private(cur, kern, i) then PresentFrom(s0.tables[cur[i]].pages, 0) else 0) >= |s.free|
    ensures DirProgress(s0, s', cur, kern, SetSlot(dir, i, t), i + 1)
  {
    FramesKeptTrans(s0, s, s');
    forall k: nat | k < i
      ensures SlotCopied(s0.tables, cur, kern, k, s'.tables, SetSlot(dir, i, t), s0.phys, s'.phys, s0.free, s'.owner)
    {
      SlotStaysCopied(s0, s, s', cur, kern, dir, i, t, k);
    }
  }

  /** A new table in a slot that the kernel does not share starts out empty. */
  lemma NewTableProgress(s0: Space, s: Space, cur: Directory, kern: Directory, dir: Directory, i: nat, t: nat)
    requires DirProgress(s0, s, cur, kern, dir, i) && i < ENTRIES && Private(cur, kern, i) && t !in s.tables
    requires s.owner.Keys !! s.free && InUse(s0.tables, cur, s0.free)
    ensures var s1 := s.(tables := s.tables[t := Table(i, EMPTY_TABLE)]);
            var src := s0.tables[cur[i]].pages;
            && TableProgress(s1, s1, src, t, i, 0, s0.phys, s0.free) && SourceIntact(s1, src, s0.phys, s0.free)
            && FramesKept(s, s1) && TablesExtended(s.tables, s1.tables)
  {
    var src := s0.tables[cur[i]].pages;
    forall k | 0 <= k < |src| && src[k].present ensures src[k].frame !in s0.free {
      PageAddress(i, k);
      assert Entry(s0.tables, cur, i * ENTRIES + k) == src[k];
    }
  }

  /** A table that is all copied fills its slot. */
  lemma TableFillsSlot(s0: Space, s: Space, s1: Space, s2: Space, cur: Directory, kern: Directory, dir: Directory,
                       i: nat, t: nat)
    requires DirProgress(s0, s, cur, kern, dir, i) && i < ENTRIES && Private(cur, kern, i) && t !in s.tables && t != 0
    requires s1 == s.(tables := s.tables[t := Table(i, EMPTY_TABLE)])
    requires TableProgress(s1, s2, s0.tables[cur[i]].pages, t, i, ENTRIES, s0.phys, s0.free)
    ensures DirProgress(s0, s2, cur, kern, SetSlot(dir, i, t), i + 1)
  {
    FramesKeptTrans(s, s1, s2);
    SlotJoinsDir(s0, s, s2, cur, kern, dir, i, t);
  }

  const NO_TABLES: Directory := seq(1024, _ => 0)

  lemma NothingCopied(s0: Space, cur: Directory, kern: Directory)
    requires DirOk(s0.tables, cur) && |kern| == ENTRIES && s0.owner == map[]
    ensures DirProgress(s0, s0, cur, kern, NO_TABLES, 0)
  {
  }

  /** A slot that is empty or that the kernel shares is copied by linking. */
  lemma LinkFillsSlot(s0: Space, s: Space, cur: Directory, kern: Directory, dir: Directory, i: nat)
    requires DirProgress(s0, s, cur, kern, dir, i) && i < ENTRIES && !Private(cur, kern, i) && s.owner.Keys !! s.free
    ensures DirProgress(s0, s, cur, kern, SetSlot(dir, i, cur[i]), i + 1)
  {
    SlotJoinsDir(s0, s, s, cur, kern, dir, i, cur[i]);
  }

  /** A copy of the kernel directory itself takes no frames. */
  lemma {:induction false} KernelNeedsNone(tables: Tables, cur: Directory, kern: Directory, i: nat)
    requires DirOk(tables, cur) && |kern| == ENTRIES && i <= ENTRIES
    requires forall k | 0 <= k < ENTRIES :: cur[k] == kern[k]
    ensures NeedFrom(tables, cur, kern, i) == 0
    decreases ENTRIES - i
  {
    if i < ENTRIES { KernelNeedsNone(tables, cur, kern, i + 1); }
  }

  /** And it is the same directory again. */
  lemma KernelCopied(s0: Space, s: Space, kern: Directory, dir: Directory)
    requires DirProgress(s0, s, kern, kern, dir, ENTRIES)
    ensures dir == kern && forall v: nat :: Entry(s.tables, dir, v) == Entry(s0.tables, kern, v)
  {
    forall i: nat | i < ENTRIES ensures dir[i] == kern[i] {
      assert SlotCopied(s0.tables, kern, kern, i, s.tables, dir, s0.phys, s.phys, s0.free, s.owner);
    }
    forall v: nat ensures Entry(s.tables, kern, v) == Entry(s0.tables, kern, v) {
      OtherDir(s0.tables, s.tables, kern, v);
    }
  }

  class Mmu {
    const frames: FrameMap
    var tables: Tables
    var dirs: map<nat, Directory>
    var heap: nat  // the next address kmalloc returns
    var phys: Memory

    ghost predicate Valid()
      reads this
    {
      && heap > 0
      && (forall t | t in tables :: t < heap)
      && (forall d | d in dirs :: d < heap && DirOk(tables, dirs[d]))
    }

    constructor (words: nat)
      ensures Valid() && Taken() && fresh(frames) && fresh(frames.words)
      ensures tables == map[] && dirs == map[] && phys == map[] && frames.Count() == 32 * words
    {
      frames := new FrameMap(words);
      tables, dirs, heap, phys := map[], map[], 1, map[];
    }

    /** Every present page is in a frame that is taken. */
    ghost predicate Taken()
      reads this, frames.words
    {
      TablesTaken(tables, frames.Free())
    }

    /** A directory without tables. */
    method NewDirectory() returns (d: nat)
      requires Valid()
      modifies this`dirs, this`heap
      ensures Valid() && d !in old(dirs) && dirs == old(dirs)[d := NO_TABLES]
    {
      d := heap;
      heap := heap + 1;
      dirs := dirs[d := NO_TABLES];
    }

    /** alloc_page_table: a table of its own, full of zeros, in an empty slot. */
    method AllocPageTable(i: nat, d: nat) returns (t: nat)
      requires Valid() && d in dirs && i < ENTRIES && dirs[d][i] == 0
      modifies this`tables, this`dirs, this`heap
      ensures Valid() && t != 0 && t !in old(tables) && tables == old(tables)[t := Table(i, EMPTY_TABLE)]
      ensures dirs == old(dirs)[d := SetSlot(old(dirs)[d], i, t)]
      ensures old(Taken()) ==> Taken()
    {
      ghost var tables0, dir0 := tables, dirs[d];
      t := heap;
      heap := heap + 1;
      tables := tables[t := Table(i, EMPTY_TABLE)];
      dirs := dirs[d := SetSlot(dirs[d], i, t)];
      NewTableEntry(tables0, dir0, i, t, 0);
      forall e | e in dirs && e != d ensures DirOk(tables, dirs[e]) { OtherDir(tables0, tables, dirs[e], 0); }
    }

    /** get_page: the table that holds the entry of an address, made when it is missing and
        that was asked for; null otherwise. */
    method GetPage(va: nat, make: bool, d: nat) returns (t: nat)
      requires Valid() && d in dirs && va / PAGE_SIZE / ENTRIES < ENTRIES
      modifies this`tables, this`dirs, this`heap
      ensures Valid() && d in dirs && dirs.Keys == old(dirs.Keys)
      ensures t == dirs[d][va / PAGE_SIZE / ENTRIES] && (make ==> t != 0)
      ensures forall v: nat :: Entry(tables, dirs[d], v) == Entry(old(tables), old(dirs)[d], v)
      ensures forall x | x in old(tables) :: x in tables && tables[x] == old(tables)[x]
      ensures forall e | e in dirs && e != d :: dirs[e] == old(dirs)[e]
      ensures !make || old(dirs)[d][va / PAGE_SIZE / ENTRIES] != 0 ==>
                tables == old(tables) && dirs == old(dirs) && heap == old(heap)
      ensures forall e | e in dirs && e != d :: SameSharing(old(dirs)[d], dirs[d], dirs[e])
      ensures var i := va / PAGE_SIZE / ENTRIES;
              make && old(dirs)[d][i] == 0 ==>
                && t !in old(tables) && t in tables && IsNewTable(tables[t], i)
                && tables == old(tables)[t := tables[t]] && dirs == old(dirs)[d := SetSlot(old(dirs)[d], i, t)]
      ensures old(Taken()) ==> Taken()
    {
      var i := va / PAGE_SIZE / ENTRIES;
      if dirs[d][i] == 0 && make {
        ghost var tables0, dir0 := tables, dirs[d];
        t := AllocPageTable(i, d);
        forall v: nat ensures Entry(tables, dirs[d], v) == Entry(tables0, dir0, v) {
          NewTableEntry(tables0, dir0, i, t, v);
        }
      } else {
        t := dirs[d][i];
      }
    }

    /** get_page where there is a table already. */
    method FindPage(va: nat, d: nat) returns (t: nat)
      requires Valid() && d in dirs && va / PAGE_SIZE / ENTRIES < ENTRIES && dirs[d][va / PAGE_SIZE / ENTRIES] != 0
      modifies this`tables, this`dirs, this`heap
      ensures tables == old(tables) && dirs == old(dirs) && heap == old(heap)
      ensures t == dirs[d][va / PAGE_SIZE / ENTRIES]
    {
      t := GetPage(va, true, d);
    }

    /** map_frame */
    method MapFrame(t: nat, j: nat, addr: nat, remap: bool, kernel: bool, writable: bool) returns (r: int)
      requires t in tables && j < |tables[t].pages| && addr / PAGE_SIZE < frames.Count()
      modifies this`tables, frames.words
      ensures r == if old(tables)[t].pages[j].frame != 0 && !remap then -1 else 0
      ensures r == -1 ==> tables == old(tables) && frames.Free() == old(frames.Free())
      ensures r == 0 ==> tables == PutPage(old(tables), t, j, Page(true, writable, !kernel, addr / PAGE_SIZE)) &&
                         frames.Free() == old(frames.Free()) - {addr / PAGE_SIZE}
      ensures old(Taken()) ==> Taken()
    {
      if tables[t].pages[j].frame != 0 && !remap { return -1; }
      ghost var p := Page(true, writable, !kernel, addr / PAGE_SIZE);
      if Taken() { PutTaken(tables, t, j, p, frames.Free()); }
      frames.SetFrame(addr);
      tables := PutPage(tables, t, j, Page(true, writable, !kernel, addr / PAGE_SIZE));
      return 0;
    }

    /** One round of the range-mapping loops. */
    method MapOne(va: nat, pa: nat, kernel: bool, writable: bool, d: nat) returns (r: int)
      requires Valid() && d in dirs && va < 0x1_0000_0000 && pa / PAGE_SIZE < frames.Count()
      modifies this`tables, this`dirs, this`heap, frames.words
      ensures Valid() && d in dirs && r == 0
      ensures RangeMapped(old(dirs), old(tables), dirs, tables, d, va / PAGE_SIZE, pa / PAGE_SIZE, 1, writable, !kernel)
      ensures forall e | e in dirs && e != d :: SameSharing(old(dirs)[d], dirs[d], dirs[e])
      ensures old(Taken()) ==> Taken()
    {
      var t := GetPage(va, true, d);
      ghost var tables1 := tables;
      var vp := va / PAGE_SIZE;
      r := MapFrame(t, vp % ENTRIES, pa, true, kernel, writable);
      ghost var p := Page(true, writable, !kernel, pa / PAGE_SIZE);
      forall v: nat ensures Entry(tables, dirs[d], v) == if v == vp then p else Entry(tables1, dirs[d], v) {
        PutPageEntry(tables1, dirs[d], vp, p, v);
      }
      forall e | e in dirs ensures DirOk(tables, dirs[e]) { PutKeepsDir(tables1, t, vp % ENTRIES, p, dirs[e]); }
      forall e | e in dirs && e != d ensures Sees(old(tables), tables, dirs[d], dirs[e], vp, 1) {
        PutPageSees(tables1, dirs[d], dirs[e], vp, p);
        forall v: nat ensures Entry(tables1, dirs[e], v) == Entry(old(tables), dirs[e], v) {
          OtherDir(old(tables), tables1, dirs[e], v);
        }
      }
    }

    /** One more page of a range. */
    method MapNext(va: nat, pa: nat, kernel: bool, writable: bool, d: nat, ghost dirs0: map<nat, Directory>,
                   ghost tables0: Tables, ghost vp: nat, ghost frame: nat, ghost n: nat)
      returns (r: int)
      requires Valid() && RangeMapped(dirs0, tables0, dirs, tables, d, vp, frame, n, writable, !kernel)
      requires va < 0x1_0000_0000 && pa / PAGE_SIZE < frames.Count()
      requires va / PAGE_SIZE == vp + n && pa / PAGE_SIZE == frame + n
      modifies this`tables, this`dirs, this`heap, frames.words
      ensures Valid() && RangeMapped(dirs0, tables0, dirs, tables, d, vp, frame, n + 1, writable, !kernel) && r == 0
      ensures old(Taken()) ==> Taken()
    {
      ghost var dirs1, tables1 := dirs, tables;
      r := MapOne(va, pa, kernel, writable, d);
      RangeMappedNext(dirs0, tables0, dirs1, tables1, dirs, tables, d, vp, frame, n, writable, !kernel,
                      va / PAGE_SIZE, pa / PAGE_SIZE);
    }

    /** map_physical_to_virtual: as many pages as the size needs, from the page of `va` on,
        and no others. */
    method MapPhysicalToVirtual(pa: nat, va: nat, size: nat, kernel: bool, writable: bool, d: nat) returns (r: int)
      requires Valid() && d in dirs && va + size <= 0x1_0000_0000 && pa + size <= frames.Count() * PAGE_SIZE
      modifies this`tables, this`dirs, this`heap, frames.words
      ensures Valid() && d in dirs && r == 0
      ensures RangeMapped(old(dirs), old(tables), dirs, tables, d,
                          va / PAGE_SIZE, pa / PAGE_SIZE, PagesFor(size), writable, !kernel)
      ensures old(Taken()) ==> Taken()
    {
      ghost var n, dirs0, tables0, vp, frame := 0, dirs, tables, va / PAGE_SIZE, pa / PAGE_SIZE;
      var i := 0;
      while i < size
        invariant i == n * PAGE_SIZE && n <= PagesFor(size)
        invariant Valid() && RangeMapped(dirs0, tables0, dirs, tables, d, vp, frame, n, writable, !kernel)
        invariant old(Taken()) ==> Taken()
      {
        RoundAddresses(va, pa, n, i);
        var ret := MapNext(va + i, pa + i, kernel, writable, d, dirs0, tables0, vp, frame, n);
        if ret != 0 { return -1; }
        i := i + PAGE_SIZE;
        n := n + 1;
      }
      assert n == PagesFor(size);
      return 0;
    }

    /** identity_map_memory_block: every page from that of `start` on, up to `end`. */
    method IdentityMapMemoryBlock(start: nat, end: nat, kernel: bool, writable: bool, d: nat) returns (r: int)
      requires Valid() && d in dirs && end + PAGE_SIZE < 0x1_0000_0000 && end < frames.Count() * PAGE_SIZE
      modifies this`tables, this`dirs, this`heap, frames.words
      ensures Valid() && d in dirs && r == 0
      ensures var n := if start > end then 0 else PagesFor(end - start + 1);
              RangeMapped(old(dirs), old(tables), dirs, tables, d,
                          start / PAGE_SIZE, start / PAGE_SIZE, n, writable, !kernel)
      ensures old(Taken()) ==> Taken()
    {
      ghost var n, dirs0, tables0, vp := 0, dirs, tables, start / PAGE_SIZE;
      var a := start;
      while a <= end
        invariant a == start + n * PAGE_SIZE
        invariant start <= end ==> n <= PagesFor(end - start + 1)
        invariant start > end ==> n == 0
        invariant Valid() && RangeMapped(dirs0, tables0, dirs, tables, d, vp, vp, n, writable, !kernel)
        invariant old(Taken()) ==> Taken()
        decreases end + PAGE_SIZE - a
      {
        RoundAddresses(start, start, n, n * PAGE_SIZE);
        r := MapNext(a, a, kernel, writable, d, dirs0, tables0, vp, vp, n);
        if r != 0 { return; }
        a := a + PAGE_SIZE;
        n := n + 1;
      }
      return 0;
    }

    /** alloc_frame: the least free frame, and only when the entry has none yet. */
    method AllocFrame(t: nat, j: nat, kernel: bool, writable: bool) returns (r: int)
      requires t in tables && j < |tables[t].pages|
      modifies this`tables, frames.words
      ensures r == if old(tables)[t].pages[j].frame != 0 then -1 else if old(frames.Free()) == {} then -2 else 0
      ensures r != 0 ==> tables == old(tables) && frames.Free() == old(frames.Free())
      ensures t in tables && j < |tables[t].pages|
      ensures r == 0 ==>
                var f := tables[t].pages[j].frame;
                && f in old(frames.Free()) && (forall g | g in old(frames.Free()) :: f <= g)
                && tables == PutPage(old(tables), t, j, Page(true, writable, !kernel, f))
                && frames.Free() == old(frames.Free()) - {f}
      ensures old(Taken()) ==> Taken()
    {
      if tables[t].pages[j].frame != 0 { return -1; }
      var index := frames.FirstFrame();
      if index == -1 { return -2; }
      AddressOf(index);
      frames.FreeInRange(index);
      if Taken() { PutTaken(tables, t, j, Page(true, writable, !kernel, index), frames.Free()); }
      frames.SetFrame(index * 0x1000);
      tables := PutPage(tables, t, j, Page(true, writable, !kernel, index));
      return 0;
    }

    /** The middle of copy_page: the buffer page is given a frame, the bytes of a page are
        copied to it through the current directory, and it gets its own frame back. */
    method CopyThroughBuffer(vp: nat, frame: nat, cur: nat, bt: nat)
      requires cur in dirs && DirOk(tables, dirs[cur]) && bt == dirs[cur][BUFFER / ENTRIES] && bt != 0
      requires vp / ENTRIES < ENTRIES && vp / ENTRIES != BUFFER / ENTRIES
      requires Entry(tables, dirs[cur], vp).present && Entry(tables, dirs[cur], BUFFER).present
      modifies this`tables, this`phys
      ensures tables == old(tables)
      ensures phys == old(phys)[frame := At(old(phys), Entry(tables, dirs[cur], vp).frame)]
    {
      var b := BUFFER % ENTRIES;
      var buf := tables[bt].pages[b];
      ghost var p := buf.(frame := frame);
      PutBack(tables, bt, b, p);
      PutPageEntry(tables, dirs[cur], BUFFER, p, vp);
      PutPageEntry(tables, dirs[cur], BUFFER, p, BUFFER);
      tables := PutPage(tables, bt, b, buf.(frame := frame));
      phys := phys[Entry(tables, dirs[cur], BUFFER).frame := At(phys, Entry(tables, dirs[cur], vp).frame)];
      tables := PutPage(tables, bt, b, tables[bt].pages[b].(frame := buf.frame));
    }

    /** The frame of a copied page, if there is one. */
    method AllocCopy(p: Page, nt: nat, j: nat, cur: nat, newdir: nat, ghost vp: nat) returns (f: nat)
      requires Valid() && cur in dirs && newdir in dirs && CopyReady(tables, dirs[cur], dirs[newdir], vp)
      requires nt == dirs[newdir][vp / ENTRIES] && j == vp % ENTRIES
      modifies this`tables, frames.words
      ensures Valid() && (old(Taken()) ==> Taken())
      ensures Entry(tables, dirs[cur], vp) == Entry(old(tables), dirs[cur], vp)
      ensures Entry(tables, dirs[cur], BUFFER) == Entry(old(tables), dirs[cur], BUFFER)
      ensures if old(frames.Free()) == {} then
                f == 0 && tables == old(tables) && frames.Free() == {}
              else
                && f in old(frames.Free()) && (forall g | g in old(frames.Free()) :: f <= g)
                && frames.Free() == old(frames.Free()) - {f}
                && tables == PutPage(old(tables), nt, j, Page(true, p.rw, p.user, f))
    {
      ghost var tables0 := tables;
      var r := AllocFrame(nt, j, !p.user, p.rw);
      f := tables[nt].pages[j].frame;
      if r == 0 {
        CopyReadyStays(tables0, dirs[cur], dirs[newdir], vp, Page(true, p.rw, p.user, f));
        forall e | e in dirs ensures DirOk(tables, dirs[e]) {
          PutKeepsDir(tables0, nt, j, Page(true, p.rw, p.user, f), dirs[e]);
        }
      }
    }

    /** copy_page: the copy has the flags and the bytes of the page and the least free frame.
        Without a free frame the bytes land in frame 0. */
    method CopyPage(addr: nat, cur: nat, newdir: nat) returns (ghost f: nat)
      requires Valid() && cur in dirs && newdir in dirs
      requires CopyReady(tables, dirs[cur], dirs[newdir], addr / PAGE_SIZE)
      modifies this`tables, this`dirs, this`heap, this`phys, frames.words
      ensures Valid() && dirs == old(dirs) && heap == old(heap)
      ensures old(Taken()) ==> Taken()
      ensures var vp := addr / PAGE_SIZE;
              var p := Entry(old(tables), dirs[cur], vp);
              && phys == old(phys)[f := At(old(phys), p.frame)]
              && if old(frames.Free()) == {} then
                   f == 0 && tables == old(tables) && frames.Free() == {}
                 else
                   && f in old(frames.Free()) && (forall g | g in old(frames.Free()) :: f <= g)
                   && frames.Free() == old(frames.Free()) - {f}
                   && tables == PutPage(old(tables), dirs[newdir][vp / ENTRIES], vp % ENTRIES,
                                        Page(true, p.rw, p.user, f))
    {
      var vp := addr / PAGE_SIZE;
      assert BUFFER * PAGE_SIZE / PAGE_SIZE == BUFFER;
      var ct := FindPage(addr, cur);
      var bt := FindPage(BUFFER * PAGE_SIZE, cur);
      var nt := FindPage(addr, newdir);
      var j := vp % ENTRIES;
      var frame := AllocCopy(tables[ct].pages[j], nt, j, cur, newdir, vp);
      f := frame;
      CopyThroughBuffer(vp, frame, cur, bt);
    }

    ghost function Snapshot(owner: map<nat, nat>): Space
      reads this, frames.words
    {
      Space(tables, phys, frames.Free(), owner)
    }

    /** One round of the inner loop, for a present page. */
    method CopyEntry(i: nat, j: nat, cur: nat, newdir: nat, ghost owner0: map<nat, nat>)
      returns (ghost owner: map<nat, nat>)
      requires Valid() && cur in dirs && newdir in dirs && SlotReady(tables, dirs[cur], dirs[newdir], i) && j < ENTRIES
      requires tables[dirs[cur][i]].pages[j].present && tables[dirs[newdir][i]].pages[j] == NO_PAGE
      requires frames.Free() != {}
      modifies this`tables, this`dirs, this`heap, this`phys, frames.words
      ensures Valid() && dirs == old(dirs) && heap == old(heap)
      ensures old(Taken()) ==> Taken()
      ensures exists f :: && f in old(frames.Free())
                && Snapshot(owner) == Copied(old(Snapshot(owner0)), dirs[newdir][i], j,
                                             old(tables)[dirs[cur][i]].pages[j], i * ENTRIES + j, f)
    {
      PageAddress(i, j);
      ghost var f := CopyPage((i * ENTRIES + j) * 0x1000, cur, newdir);
      owner := owner0[f := i * ENTRIES + j];
    }

    /** One round of the inner loop of duplicate_current_page_directory. */
    method CopyRound(i: nat, j: nat, cur: nat, newdir: nat, ghost m0: Memory, ghost free0: set<nat>, ghost s0: Space,
                     ghost owner0: map<nat, nat>)
      returns (ghost owner: map<nat, nat>)
      requires Valid() && cur in dirs && newdir in dirs && SlotReady(tables, dirs[cur], dirs[newdir], i) && j < ENTRIES
      requires TableProgress(s0, Snapshot(owner0), tables[dirs[cur][i]].pages, dirs[newdir][i], i, j, m0, free0)
      requires SourceIntact(s0, tables[dirs[cur][i]].pages, m0, free0)
      requires |s0.free| >= PresentFrom(tables[dirs[cur][i]].pages, 0)
      modifies this`tables, this`dirs, this`heap, this`phys, frames.words
      ensures Valid() && dirs == old(dirs) && heap == old(heap)
      ensures SlotReady(tables, dirs[cur], dirs[newdir], i) && tables[dirs[cur][i]] == old(tables)[dirs[cur][i]]
      ensures TableProgress(s0, Snapshot(owner), old(tables)[dirs[cur][i]].pages, dirs[newdir][i], i, j + 1, m0, free0)
      ensures old(Taken()) ==> Taken()
    {
      var st, nt := dirs[cur][i], dirs[newdir][i];
      owner := owner0;
      ghost var s, src := Snapshot(owner0), tables[st].pages;
      if tables[st].pages[j].present {
        FrameLeft(s0, s, src, nt, i, j, m0, free0);
        owner := CopyEntry(i, j, cur, newdir, owner0);
        ghost var f :| f in s.free && Snapshot(owner) == Copied(s, nt, j, src[j], i * ENTRIES + j, f);
        TableProgressNext(s0, s, src, nt, i, j, m0, free0, f);
        SlotStaysReady(s.tables, dirs[cur], dirs[newdir], i, j, Page(true, src[j].rw, src[j].user, f));
      } else {
        TableProgressSkip(s0, s, src, nt, i, j, m0, free0);
      }
    }

    /** The inner loop of duplicate_current_page_directory: the present pages of a table. */
    method CopyTable(i: nat, cur: nat, newdir: nat, ghost m0: Memory, ghost free0: set<nat>, ghost owner0: map<nat,
                     nat>)
      returns (ghost owner: map<nat, nat>)
      requires Valid() && cur in dirs && newdir in dirs && SlotReady(tables, dirs[cur], dirs[newdir], i)
      requires TableProgress(Snapshot(owner0), Snapshot(owner0), tables[dirs[cur][i]].pages, dirs[newdir][i], i, 0,
                             m0, free0)
      requires SourceIntact(Snapshot(owner0), tables[dirs[cur][i]].pages, m0, free0)
      requires |frames.Free()| >= PresentFrom(tables[dirs[cur][i]].pages, 0)
      modifies this`tables, this`dirs, this`heap, this`phys, frames.words
      ensures Valid() && dirs == old(dirs) && heap == old(heap)
      ensures TableProgress(old(Snapshot(owner0)), Snapshot(owner), old(tables)[dirs[cur][i]].pages, dirs[newdir][i], i,
                            ENTRIES, m0, free0)
      ensures old(Taken()) ==> Taken()
    {
      var st, nt := dirs[cur][i], dirs[newdir][i];
      ghost var src, s0 := tables[st].pages, Snapshot(owner0);
      owner := owner0;
      for j := 0 to ENTRIES
        invariant Valid() && dirs == old(dirs) && heap == old(heap)
        invariant SlotReady(tables, dirs[cur], dirs[newdir], i) && tables[st].pages == src
        invariant TableProgress(s0, Snapshot(owner), src, nt, i, j, m0, free0)
        invariant old(Taken()) ==> Taken()
      {
        owner := CopyRound(i, j, cur, newdir, m0, free0, s0, owner);
      }
    }

    /** A new table in a slot of the copy, ready to be filled. */
    method StartSlot(i: nat, cur: nat, newdir: nat, ghost kern: Directory, ghost s0: Space, ghost owner: map<nat, nat>)
      returns (t: nat)
      requires Valid() && cur in dirs && newdir in dirs && newdir != cur && i < ENTRIES
      requires DirProgress(s0, Snapshot(owner), dirs[cur], kern, dirs[newdir], i) && Private(dirs[cur], kern, i)
      requires BufferShared(s0.tables, dirs[cur], kern) && InUse(s0.tables, dirs[cur], s0.free)
      modifies this`tables, this`dirs, this`heap
      ensures Valid() && newdir in dirs && OthersKept(old(dirs), dirs, newdir)
      ensures t != 0 && t !in old(tables) && dirs[newdir] == SetSlot(old(dirs)[newdir], i, t)
      ensures Snapshot(owner) == old(Snapshot(owner)).(tables := old(tables)[t := Table(i, EMPTY_TABLE)])
      ensures SlotReady(tables, dirs[cur], dirs[newdir], i)
      ensures tables[dirs[cur][i]] == s0.tables[dirs[cur][i]]
      ensures TableProgress(Snapshot(owner), Snapshot(owner), s0.tables[dirs[cur][i]].pages, t, i, 0, s0.phys, s0.free)
      ensures SourceIntact(Snapshot(owner), s0.tables[dirs[cur][i]].pages, s0.phys, s0.free)
      ensures old(Taken()) ==> Taken()
    {
      ghost var s, dir := Snapshot(owner), dirs[newdir];
      t := AllocPageTable(i, newdir);
      NewTableProgress(s0, s, dirs[cur], kern, dir, i, t);
    }

    /** The part of a round of the outer loop that copies a table of the process's own. */
    method CopySlot(i: nat, cur: nat, kern: nat, newdir: nat, ghost s0: Space, ghost owner0: map<nat, nat>)
      returns (ghost owner: map<nat, nat>)
      requires Valid() && cur in dirs && kern in dirs && newdir in dirs && newdir != cur && newdir != kern
      requires i < ENTRIES
      requires DirProgress(s0, Snapshot(owner0), dirs[cur], dirs[kern], dirs[newdir], i)
      requires Private(dirs[cur], dirs[kern], i)
      requires BufferShared(s0.tables, dirs[cur], dirs[kern]) && InUse(s0.tables, dirs[cur], s0.free)
      requires |s0.free| >= NeedFrom(s0.tables, dirs[cur], dirs[kern], 0)
      modifies this`tables, this`dirs, this`heap, this`phys, frames.words
      ensures Valid() && newdir in dirs && OthersKept(old(dirs), dirs, newdir)
      ensures DirProgress(s0, Snapshot(owner), dirs[cur], dirs[kern], dirs[newdir], i + 1)
      ensures old(Taken()) ==> Taken()
    {
      ghost var s, c, k, dir := Snapshot(owner0), dirs[cur], dirs[kern], dirs[newdir];
      var t := StartSlot(i, cur, newdir, k, s0, owner0);
      ghost var s1 := Snapshot(owner0);
      owner := CopyTable(i, cur, newdir, s0.phys, s0.free, owner0);
      TableFillsSlot(s0, s, s1, Snapshot(owner), c, k, dir, i, t);
    }

    /** One round of the outer loop. */
    method DuplicateSlot(i: nat, cur: nat, kern: nat, newdir: nat, ghost s0: Space, ghost owner0: map<nat, nat>)
      returns (ghost owner: map<nat, nat>)
      requires Valid() && cur in dirs && kern in dirs && newdir in dirs && newdir != cur && newdir != kern
      requires i < ENTRIES
      requires DirProgress(s0, Snapshot(owner0), dirs[cur], dirs[kern], dirs[newdir], i)
      requires BufferShared(s0.tables, dirs[cur], dirs[kern]) && InUse(s0.tables, dirs[cur], s0.free)
      requires |s0.free| >= NeedFrom(s0.tables, dirs[cur], dirs[kern], 0)
      modifies this`tables, this`dirs, this`heap, this`phys, frames.words
      ensures Valid() && newdir in dirs && OthersKept(old(dirs), dirs, newdir)
      ensures DirProgress(s0, Snapshot(owner), dirs[cur], dirs[kern], dirs[newdir], i + 1)
      ensures old(Taken()) ==> Taken()
    {
      owner := owner0;
      if dirs[cur][i] != 0 {
        if dirs[cur][i] == dirs[kern][i] {
          LinkFillsSlot(s0, Snapshot(owner), dirs[cur], dirs[kern], dirs[newdir], i);
          dirs := dirs[newdir := SetSlot(dirs[newdir], i, dirs[cur][i])];
        } else {
          owner := CopySlot(i, cur, kern, newdir, s0, owner0);
        }
      } else {
        LinkFillsSlot(s0, Snapshot(owner), dirs[cur], dirs[kern], dirs[newdir], i);
        assert dirs[newdir] == SetSlot(dirs[newdir], i, 0);
      }
    }

    /** duplicate_current_page_directory, of `cur` while `kern` is the kernel directory. */
    method DuplicateCurrentPageDirectory(cur: nat, kern: nat) returns (newdir: nat, ghost owner: map<nat, nat>)
      requires Valid() && cur in dirs && kern in dirs
      requires BufferShared(tables, dirs[cur], dirs[kern]) && InUse(tables, dirs[cur], frames.Free())
      requires |frames.Free()| >= NeedFrom(tables, dirs[cur], dirs[kern], 0)
      modifies this`tables, this`dirs, this`heap, this`phys, frames.words
      ensures Valid() && newdir !in old(dirs) && newdir in dirs && OthersKept(old(dirs), dirs, newdir)
      ensures DirProgress(old(Snapshot(map[])), Snapshot(owner), dirs[cur], dirs[kern], dirs[newdir], ENTRIES)
      ensures old(Taken()) ==> Taken()
    {
      owner := map[];
      ghost var s0 := Snapshot(owner);
      NothingCopied(s0, dirs[cur], dirs[kern]);
      newdir := NewDirectory();
      for i := 0 to ENTRIES
        invariant Valid() && newdir in dirs && OthersKept(old(dirs), dirs, newdir)
        invariant DirProgress(s0, Snapshot(owner), dirs[cur], dirs[kern], dirs[newdir], i)
        invariant old(Taken()) ==> Taken()
      {
        owner := DuplicateSlot(i, cur, kern, newdir, s0, owner);
      }
    }

    /** The kernel directory of init_paging: the kernel's own pages, and a frame for the page
        buffer unless none is left. */
    method KernelDirectory(end: nat) returns (kern: nat, ok: bool)
      requires Valid() && Taken() && end + PAGE_SIZE < 0x1_0000_0000 && end < frames.Count() * PAGE_SIZE
      modifies this`tables, this`dirs, this`heap, frames.words
      ensures Valid() && Taken() && kern !in old(dirs) && dirs.Keys == old(dirs.Keys) + {kern}
      ensures Mapped(tables, dirs[kern], 0, 0, PagesFor(end + 1), false, false)
      ensures if ok then Entry(tables, dirs[kern], BUFFER).present else frames.Free() == {}
    {
      kern := NewDirectory();
      var _ := IdentityMapMemoryBlock(0, end, true, false, kern);
      assert BUFFER * PAGE_SIZE / PAGE_SIZE == BUFFER;
      assert forall v: nat :: Entry(old(tables), NO_TABLES, v) == NO_PAGE;
      var t := GetPage(BUFFER * PAGE_SIZE, true, kern);
      ok := AllocBuffer(t, kern, PagesFor(end + 1));
    }

    /** The frame of the page buffer. */
    method AllocBuffer(t: nat, kern: nat, ghost n: nat) returns (ok: bool)
      requires Valid() && Taken() && kern in dirs && t == dirs[kern][BUFFER / ENTRIES] && t != 0
      requires Mapped(tables, dirs[kern], 0, 0, n, false, false)
      requires n <= BUFFER ==> Entry(tables, dirs[kern], BUFFER) == NO_PAGE
      modifies this`tables, frames.words
      ensures Valid() && Taken() && Mapped(tables, dirs[kern], 0, 0, n, false, false)
      ensures if ok then Entry(tables, dirs[kern], BUFFER).present else frames.Free() == {}
    {
      ghost var tables0 := tables;
      var r := AllocFrame(t, BUFFER % ENTRIES, true, false);
      ok := r != -2;
      if r == 0 {
        ghost var p := tables[t].pages[BUFFER % ENTRIES];
        assert Entry(tables0, dirs[kern], BUFFER).frame == 0 && n <= BUFFER;
        forall v: nat ensures Entry(tables, dirs[kern], v) == if v == BUFFER then p else Entry(tables0, dirs[kern], v) {
          PutPageEntry(tables0, dirs[kern], BUFFER, p, v);
        }
        forall e | e in dirs ensures DirOk(tables, dirs[e]) { PutKeepsDir(tables0, t, BUFFER % ENTRIES, p, dirs[e]); }
      }
    }

    /** init_paging: the kernel directory and its first copy, which has the kernel's pages and
        can be copied again. */
    method InitPaging(end: nat) returns (kern: nat, cur: nat, ok: bool)
      requires Valid() && Taken() && end + PAGE_SIZE < 0x1_0000_0000 && end < frames.Count() * PAGE_SIZE
      modifies this`tables, this`dirs, this`heap, this`phys, frames.words
      ensures !ok ==> frames.Free() == {}
      ensures ok ==> Valid() && Taken() && dirs.Keys == old(dirs.Keys) + {kern, cur}
      ensures ok ==> kern != cur && dirs[cur] == dirs[kern]
      ensures ok ==> Mapped(tables, dirs[cur], 0, 0, PagesFor(end + 1), false, false)
      ensures ok ==> BufferShared(tables, dirs[cur], dirs[kern]) && InUse(tables, dirs[cur], frames.Free())
      ensures ok ==> NeedFrom(tables, dirs[cur], dirs[kern], 0) == 0
    {
      kern, ok := KernelDirectory(end);
      cur := kern;
      if !ok { return; }
      DirTaken(tables, dirs[kern], frames.Free());
      KernelNeedsNone(tables, dirs[kern], dirs[kern], 0);
      ghost var owner, s0, k := map[], Snapshot(map[]), dirs[kern];
      cur, owner := DuplicateCurrentPageDirectory(kern, kern);
      KernelCopied(s0, Snapshot(owner), k, dirs[cur]);
      DirTaken(tables, dirs[cur], frames.Free());
      KernelNeedsNone(tables, dirs[cur], dirs[kern], 0);
    }
  }
}
