/** Address spaces over whole runs.  From what init_paging leaves, through any forks of any
    directory, any new page tables, any frames handed to any directory and any stores, the
    private pages of a directory share their frames with no other page of any directory, so
    what a private page holds is what the stores to that page made of it. */
module SpaceRuns {
  import opened AddressSpace
  import opened Frames
  import opened Paging

  /** What runs change: the page tables, the directories, the free frames and the memory. */
  datatype World = World(tables: Tables, dirs: map<nat, Directory>, free: set<nat>, phys: Memory)

  /** `Forked`: duplicate_current_page_directory.  `Grew`: get_page made table `t`.  `Gave`:
      flagforce_alloc_frame left entry `q`.  `Stored`: a byte was written. */
  datatype Event =
    | Forked(cur: nat, child: nat, owner: map<nat, nat>)
    | Grew(d: nat, i: nat, t: nat)
    | Gave(d: nat, vp: nat, q: Page)
    | Stored(d: nat, vp: nat, at: nat, byte: nat)

  ghost function SpaceOf(w: World, owner: map<nat, nat>): Space {
    Space(w.tables, w.phys, w.free, owner)
  }

  ghost predicate Forks(w: World, w': World, kern: nat, cur: nat, child: nat, owner: map<nat, nat>) {
    && kern in w.dirs && cur in w.dirs && child !in w.dirs
    && child in w'.dirs && OthersKept(w.dirs, w'.dirs, child) && DirOk(w'.tables, w'.dirs[child])
    && DirProgress(SpaceOf(w, map[]), SpaceOf(w', owner), w.dirs[cur], w.dirs[kern], w'.dirs[child], ENTRIES)
  }

  ghost predicate Grows(w: World, w': World, d: nat, i: nat, t: nat) {
    && d in w.dirs && i < |w.dirs[d]| && w.dirs[d][i] == 0 && t != 0 && t !in w.tables
    && t in w'.tables && IsNewTable(w'.tables[t], i)
    && w' == w.(tables := w.tables[t := w'.tables[t]], dirs := w.dirs[d := SetSlot(w.dirs[d], i, t)])
  }

  /** An entry without a frame gets a free one; one that has a frame keeps it. */
  predicate Filled(p: Page, q: Page, free: set<nat>, free': set<nat>) {
    if p.frame == 0 then q.present && q.frame in free && free' == free - {q.frame}
    else q == p.(rw := q.rw, user := q.user) && free' == free
  }

  ghost predicate Gives(w: World, w': World, d: nat, vp: nat, q: Page) {
    && d in w.dirs && vp / ENTRIES < |w.dirs[d]| && w.dirs[d][vp / ENTRIES] in w.tables
    && var t, j := w.dirs[d][vp / ENTRIES], vp % ENTRIES;
       && t != 0 && j < |w.tables[t].pages| && Filled(w.tables[t].pages[j], q, w.free, w'.free)
       && w' == w.(tables := PutPage(w.tables, t, j, q), free := w'.free)
  }

  ghost predicate Stores(w: World, w': World, d: nat, vp: nat, at: nat, byte: nat) {
    && d in w.dirs && Entry(w.tables, w.dirs[d], vp).present
    && w' == w.(phys := Poke(w.phys, Entry(w.tables, w.dirs[d], vp).frame, at, byte))
  }

  ghost predicate Next(w: World, a: Event, w': World, kern: nat) {
    match a
    case Forked(cur, child, owner) => Forks(w, w', kern, cur, child, owner)
    case Grew(d, i, t) => Grows(w, w', d, i, t)
    case Gave(d, vp, q) => Gives(w, w', d, vp, q)
    case Stored(d, vp, at, byte) => Stores(w, w', d, vp, at, byte)
  }

  // ---------------------------------------------------------------- invariant

  /** Two present pages are in one frame. */
  predicate Clash(tables: Tables, a: Directory, v: nat, b: Directory, u: nat) {
    var p, q := Entry(tables, a, v), Entry(tables, b, u);
    p.present && q.present && p.frame == q.frame
  }

  /** The private tables of `a` are not tables of `b`. */
  ghost predicate OwnTables(a: Directory, b: Directory, kern: Directory)
    requires |a| == |b| == |kern| == ENTRIES
  {
    forall i: nat | i < ENTRIES && Private(a, kern, i) :: b[i] != a[i]
  }

  /** The private pages of `a` are in no frame of `b`, or when the two are the same
      directory, of no other page. */
  ghost predicate OwnFrames(tables: Tables, a: Directory, b: Directory, kern: Directory, same: bool)
    requires |a| == |kern| == ENTRIES
  {
    forall v: nat, u: nat | Clash(tables, a, v, b, u) && PrivatePage(a, kern, v) :: same && v == u
  }

  /** What one directory keeps to: its tables, taken frames, and the buffer of the kernel. */
  ghost predicate Sound(w: World, kern: Directory, d: Directory) {
    DirOk(w.tables, d) && InUse(w.tables, d, w.free) && |kern| == ENTRIES && BufferShared(w.tables, d, kern)
  }

  ghost predicate Pair(w: World, kern: Directory, a: nat, b: nat)
    requires a in w.dirs && b in w.dirs && |w.dirs[a]| == |w.dirs[b]| == |kern| == ENTRIES
  {
    (a != b ==> OwnTables(w.dirs[a], w.dirs[b], kern)) && OwnFrames(w.tables, w.dirs[a], w.dirs[b], kern, a == b)
  }

  ghost predicate Apart(w: World, kern: nat) {
    && kern in w.dirs
    && (forall d | d in w.dirs :: Sound(w, w.dirs[kern], w.dirs[d]))
    && (forall a, b | a in w.dirs && b in w.dirs :: Pair(w, w.dirs[kern], a, b))
  }

  /** Frame 0 is neither free nor private; an entry with frame 0 counts as empty. */
  ghost predicate NonZero(w: World, kern: nat) {
    && 0 !in w.free && kern in w.dirs
    && forall d, v | d in w.dirs :: Owns(w, kern, d, v) ==> Entry(w.tables, w.dirs[d], v).frame != 0
  }

  /** Directory `d` has a present private page `v`. */
  ghost predicate Owns(w: World, kern: nat, d: nat, v: nat) {
    && kern in w.dirs && d in w.dirs && |w.dirs[d]| == |w.dirs[kern]| == ENTRIES
    && PrivatePage(w.dirs[d], w.dirs[kern], v) && Entry(w.tables, w.dirs[d], v).present
  }

  /** Everything the steps keep. */
  ghost predicate Kept(w: World, kern: nat) { Apart(w, kern) && NonZero(w, kern) }

  /** What init_paging leaves: every directory is the kernel's. */
  ghost predicate Start(w: World, kern: nat) {
    && kern in w.dirs && 0 !in w.free
    && forall d | d in w.dirs :: w.dirs[d] == w.dirs[kern] && Sound(w, w.dirs[kern], w.dirs[d])
  }

  lemma StartApart(w: World, kern: nat)
    requires Start(w, kern)
    ensures Kept(w, kern)
  {
    forall a, b | a in w.dirs && b in w.dirs ensures Pair(w, w.dirs[kern], a, b) {
      assert w.dirs[a] == w.dirs[kern] && w.dirs[b] == w.dirs[kern];
    }
  }

  // ---------------------------------------------------------------- forks

  /** Only private pages of the original become private pages of the copy. */
  lemma CopyPrivate(s0: Space, s: Space, cur: Directory, kern: Directory, dir: Directory, v: nat)
    requires IsCopy(s0, s, cur, kern, dir) && PrivatePage(dir, kern, v)
    ensures PrivatePage(cur, kern, v)
  {
    assert SlotCopied(s0.tables, cur, kern, v / ENTRIES, s.tables, dir, s0.phys, s.phys, s0.free, s.owner);
  }

  lemma CopyTables(s0: Space, s: Space, cur: Directory, kern: Directory, dir: Directory, other: Directory)
    requires IsCopy(s0, s, cur, kern, dir) && DirOk(s0.tables, other)
    ensures OwnTables(dir, other, kern) && OwnTables(other, dir, kern)
  {
    forall i: nat | i < ENTRIES && (Private(dir, kern, i) || Private(other, kern, i)) ensures dir[i] != other[i] {
      assert SlotCopied(s0.tables, cur, kern, i, s.tables, dir, s0.phys, s.phys, s0.free, s.owner);
    }
  }

  /** The private pages of the copy. */
  lemma CopyFrames(s0: Space, s: Space, cur: Directory, kern: Directory, dir: Directory, other: Directory)
    requires IsCopy(s0, s, cur, kern, dir)
    ensures OwnFrames(s.tables, dir, dir, kern, true)
    ensures DirOk(s0.tables, other) && InUse(s0.tables, other, s0.free) ==>
              OwnFrames(s.tables, dir, other, kern, false)
  {
    forall v: nat, u: nat | Clash(s.tables, dir, v, dir, u) && PrivatePage(dir, kern, v) ensures v == u {
      CopyPrivate(s0, s, cur, kern, dir, v);
      FramesNotShared(s0, s, cur, kern, dir, v, dir, u);
    }
    if DirOk(s0.tables, other) && InUse(s0.tables, other, s0.free) {
      forall v: nat, u: nat | PrivatePage(dir, kern, v) ensures !Clash(s.tables, dir, v, other, u) {
        CopyPrivate(s0, s, cur, kern, dir, v);
        if Entry(s.tables, dir, v).present { FramesNotShared(s0, s, cur, kern, dir, v, other, u); }
      }
    }
  }

  /** The private pages of a directory there was, against the copy. */
  lemma OldFrames(s0: Space, s: Space, cur: Directory, kern: Directory, dir: Directory, other: Directory, same: bool)
    requires IsCopy(s0, s, cur, kern, dir) && DirOk(s0.tables, other) && InUse(s0.tables, other, s0.free)
    requires OwnFrames(s0.tables, other, cur, kern, same) && (same ==> other == cur)
    ensures OwnFrames(s.tables, other, dir, kern, false)
  {
    forall v: nat, u: nat | PrivatePage(other, kern, v) ensures !Clash(s.tables, other, v, dir, u) {
      OtherDir(s0.tables, s.tables, other, v);
      if PrivatePage(cur, kern, u) {
        PrivatePageCopied(s0, s, cur, kern, dir, u);
      } else if u / ENTRIES < ENTRIES {
        SharedPage(s0, s, cur, kern, dir, u);
        OriginalKept(s0, s, cur, kern, dir, u);
        assert Clash(s.tables, other, v, dir, u) ==> Clash(s0.tables, other, v, cur, u);
      }
    }
  }

  /** Directories whose pages are in the frames they were in. */
  lemma FramesStay(t: Tables, t': Tables, a: Directory, b: Directory, kern: Directory, same: bool)
    requires |a| == |kern| == ENTRIES && OwnFrames(t, a, b, kern, same)
    requires forall v: nat :: Entry(t', a, v) == Entry(t, a, v)
    requires forall v: nat :: Entry(t', b, v) == Entry(t, b, v)
    ensures OwnFrames(t', a, b, kern, same)
  {
    forall v: nat, u: nat | Clash(t', a, v, b, u) && PrivatePage(a, kern, v) ensures same && v == u {
      assert Clash(t, a, v, b, u);
    }
  }

  /** A directory with the entries it had is as sound as it was. */
  lemma SoundStays(w: World, w': World, kern: Directory, d: Directory)
    requires Sound(w, kern, d) && DirOk(w'.tables, d) && w'.free <= w.free
    requires forall v: nat :: Entry(w'.tables, d, v) == Entry(w.tables, d, v)
    ensures Sound(w', kern, d)
  {
  }

  lemma ForkIsCopy(w: World, w': World, kern: nat, cur: nat, child: nat, owner: map<nat, nat>)
    requires Apart(w, kern) && Forks(w, w', kern, cur, child, owner)
    ensures IsCopy(SpaceOf(w, map[]), SpaceOf(w', owner), w.dirs[cur], w.dirs[kern], w'.dirs[child])
  {
    assert Sound(w, w.dirs[kern], w.dirs[cur]);
  }

  lemma ForkSound(w: World, w': World, kern: nat, cur: nat, child: nat, owner: map<nat, nat>, d: nat)
    requires Apart(w, kern) && Forks(w, w', kern, cur, child, owner) && d in w'.dirs
    ensures Sound(w', w.dirs[kern], w'.dirs[d])
    ensures d in w.dirs ==> forall v: nat :: Entry(w'.tables, w.dirs[d], v) == Entry(w.tables, w.dirs[d], v)
  {
    var s0, s, c, k, n := SpaceOf(w, map[]), SpaceOf(w', owner), w.dirs[cur], w.dirs[kern], w'.dirs[child];
    ForkIsCopy(w, w', kern, cur, child, owner);
    if d == child {
      CopyInUse(s0, s, c, k, n, c);
      assert Sound(w, k, c);
      SharedPage(s0, s, c, k, n, BUFFER);
      OriginalKept(s0, s, c, k, n, BUFFER);
    } else {
      assert Sound(w, k, w.dirs[d]);
      forall v: nat ensures Entry(w'.tables, w.dirs[d], v) == Entry(w.tables, w.dirs[d], v) {
        OtherDir(w.tables, w'.tables, w.dirs[d], v);
      }
      OtherDir(w.tables, w'.tables, w.dirs[d], 0);
      SoundStays(w, w', k, w.dirs[d]);
    }
  }

  lemma ForkPair(w: World, w': World, kern: nat, cur: nat, child: nat, owner: map<nat, nat>, a: nat, b: nat)
    requires Apart(w, kern) && Forks(w, w', kern, cur, child, owner) && a in w'.dirs && b in w'.dirs
    requires |w'.dirs[a]| == |w'.dirs[b]| == ENTRIES == |w.dirs[kern]|
    ensures Pair(w', w.dirs[kern], a, b)
  {
    var s0, s, c, k, n := SpaceOf(w, map[]), SpaceOf(w', owner), w.dirs[cur], w.dirs[kern], w'.dirs[child];
    ForkIsCopy(w, w', kern, cur, child, owner);
    if a == child || b == child {
      var other := if a == child then b else a;
      if other == child {
        CopyFrames(s0, s, c, k, n, c);
      } else {
        assert Sound(w, k, w.dirs[other]);
        CopyTables(s0, s, c, k, n, w.dirs[other]);
        CopyFrames(s0, s, c, k, n, w.dirs[other]);
        assert Pair(w, k, other, cur);
        OldFrames(s0, s, c, k, n, w.dirs[other], other == cur);
      }
    } else {
      assert Pair(w, k, a, b);
      ForkSound(w, w', kern, cur, child, owner, a);
      ForkSound(w, w', kern, cur, child, owner, b);
      FramesStay(w.tables, w'.tables, w.dirs[a], w.dirs[b], k, a == b);
    }
  }

  /** A fork of any directory. */
  lemma ForkApart(w: World, w': World, kern: nat, cur: nat, child: nat, owner: map<nat, nat>)
    requires Apart(w, kern) && Forks(w, w', kern, cur, child, owner)
    ensures Apart(w', kern)
  {
    forall d | d in w'.dirs ensures Sound(w', w'.dirs[kern], w'.dirs[d]) {
      ForkSound(w, w', kern, cur, child, owner, d);
    }
    forall a, b | a in w'.dirs && b in w'.dirs ensures Pair(w', w'.dirs[kern], a, b) {
      ForkPair(w, w', kern, cur, child, owner, a, b);
    }
  }

  // ---------------------------------------------------------------- new page tables

  lemma GrowEntry(w: World, w': World, kern: nat, d: nat, i: nat, t: nat, e: nat, v: nat)
    requires Apart(w, kern) && Grows(w, w', d, i, t) && e in w.dirs
    ensures DirOk(w'.tables, w'.dirs[e]) && Entry(w'.tables, w'.dirs[e], v) == Entry(w.tables, w.dirs[e], v)
  {
    assert Sound(w, w.dirs[kern], w.dirs[e]);
  }

  /** The new table is no table of anyone else, and it maps nothing. */
  lemma GrowPrivate(w: World, w': World, kern: nat, d: nat, i: nat, t: nat, e: nat, k: nat)
    requires Apart(w, kern) && Grows(w, w', d, i, t) && e in w.dirs && k < ENTRIES
    ensures |w'.dirs[e]| == |w'.dirs[kern]| == |w.dirs[e]| == |w.dirs[kern]| == ENTRIES
    ensures Private(w'.dirs[e], w'.dirs[kern], k) <==>
            Private(w.dirs[e], w.dirs[kern], k) || (e == d != kern && k == i)
  {
    assert Sound(w, w.dirs[kern], w.dirs[e]) && Sound(w, w.dirs[kern], w.dirs[kern]);
  }

  lemma GrowSound(w: World, w': World, kern: nat, d: nat, i: nat, t: nat, e: nat)
    requires Apart(w, kern) && Grows(w, w', d, i, t) && e in w.dirs
    ensures Sound(w', w'.dirs[kern], w'.dirs[e])
  {
    assert Sound(w, w.dirs[kern], w.dirs[e]) && Sound(w, w.dirs[kern], w.dirs[kern]);
    forall v: nat ensures Entry(w'.tables, w'.dirs[e], v) == Entry(w.tables, w.dirs[e], v) {
      GrowEntry(w, w', kern, d, i, t, e, v);
    }
    GrowEntry(w, w', kern, d, i, t, e, 0);
    GrowPrivate(w, w', kern, d, i, t, e, BUFFER / ENTRIES);
  }

  lemma GrowTables(w: World, w': World, kern: nat, d: nat, i: nat, t: nat, a: nat, b: nat)
    requires Apart(w, kern) && Grows(w, w', d, i, t) && a in w.dirs && b in w.dirs && a != b
    requires |w'.dirs[a]| == |w'.dirs[b]| == |w'.dirs[kern]| == ENTRIES
    ensures OwnTables(w'.dirs[a], w'.dirs[b], w'.dirs[kern])
  {
    assert Pair(w, w.dirs[kern], a, b);
    assert Sound(w, w.dirs[kern], w.dirs[a]) && Sound(w, w.dirs[kern], w.dirs[b]);
    forall k: nat | k < ENTRIES && Private(w'.dirs[a], w'.dirs[kern], k) ensures w'.dirs[b][k] != w'.dirs[a][k] {
      GrowPrivate(w, w', kern, d, i, t, a, k);
    }
  }

  lemma GrowFrames(w: World, w': World, kern: nat, d: nat, i: nat, t: nat, a: nat, b: nat)
    requires Apart(w, kern) && Grows(w, w', d, i, t) && a in w.dirs && b in w.dirs
    requires |w'.dirs[a]| == |w'.dirs[kern]| == ENTRIES
    ensures OwnFrames(w'.tables, w'.dirs[a], w'.dirs[b], w'.dirs[kern], a == b)
  {
    assert Pair(w, w.dirs[kern], a, b);
    forall v: nat, u: nat | Clash(w'.tables, w'.dirs[a], v, w'.dirs[b], u) && PrivatePage(w'.dirs[a], w'.dirs[kern], v)
      ensures a == b && v == u
    {
      GrowEntry(w, w', kern, d, i, t, a, v);
      GrowEntry(w, w', kern, d, i, t, b, u);
      GrowPrivate(w, w', kern, d, i, t, a, v / ENTRIES);
      assert Clash(w.tables, w.dirs[a], v, w.dirs[b], u);
    }
  }

  lemma GrowApart(w: World, w': World, kern: nat, d: nat, i: nat, t: nat)
    requires Apart(w, kern) && Grows(w, w', d, i, t)
    ensures Apart(w', kern)
  {
    forall e | e in w'.dirs ensures Sound(w', w'.dirs[kern], w'.dirs[e]) { GrowSound(w, w', kern, d, i, t, e); }
    forall a, b | a in w'.dirs && b in w'.dirs ensures Pair(w', w'.dirs[kern], a, b) {
      if a != b { GrowTables(w, w', kern, d, i, t, a, b); }
      GrowFrames(w, w', kern, d, i, t, a, b);
    }
  }

  // ---------------------------------------------------------------- frames handed out

  /** The entry is seen by the directories that have the table, and by no other. */
  lemma GiveEntry(w: World, w': World, kern: nat, d: nat, vp: nat, q: Page, e: nat, v: nat)
    requires Apart(w, kern) && Gives(w, w', d, vp, q) && e in w.dirs
    ensures DirOk(w'.tables, w'.dirs[e])
    ensures var p := Entry(w.tables, w.dirs[e], v);
            if v == vp && Shares(w.dirs[e], w.dirs[d], vp)
            then Entry(w'.tables, w'.dirs[e], v) == q && Filled(p, q, w.free, w'.free)
            else Entry(w'.tables, w'.dirs[e], v) == p
  {
    assert Sound(w, w.dirs[kern], w.dirs[e]) && Sound(w, w.dirs[kern], w.dirs[d]);
    var t, i, j := w.dirs[d][vp / ENTRIES], vp / ENTRIES, vp % ENTRIES;
    PutKeepsDir(w.tables, t, j, q, w.dirs[e]);
    if Shares(w.dirs[e], w.dirs[d], vp) {
      PutPageEntry(w.tables, w.dirs[e], vp, q, v);
    } else {
      PutElsewhere(w.tables, w.dirs[e], t, i, j, q, v);
    }
  }

  lemma GiveSound(w: World, w': World, kern: nat, d: nat, vp: nat, q: Page, e: nat)
    requires Apart(w, kern) && Gives(w, w', d, vp, q) && e in w.dirs
    ensures Sound(w', w'.dirs[kern], w'.dirs[e])
  {
    assert Sound(w, w.dirs[kern], w.dirs[e]);
    forall v: nat | Entry(w'.tables, w.dirs[e], v).present ensures Entry(w'.tables, w.dirs[e], v).frame !in w'.free {
      GiveEntry(w, w', kern, d, vp, q, e, v);
    }
    GiveEntry(w, w', kern, d, vp, q, e, BUFFER);
  }

  lemma GiveFrames(w: World, w': World, kern: nat, d: nat, vp: nat, q: Page, a: nat, b: nat)
    requires Apart(w, kern) && Gives(w, w', d, vp, q) && a in w.dirs && b in w.dirs
    requires |w.dirs[a]| == |w.dirs[kern]| == ENTRIES
    ensures OwnFrames(w'.tables, w.dirs[a], w.dirs[b], w.dirs[kern], a == b)
  {
    assert Pair(w, w.dirs[kern], a, b);
    assert Sound(w, w.dirs[kern], w.dirs[a]) && Sound(w, w.dirs[kern], w.dirs[b]);
    forall v: nat, u: nat | Clash(w'.tables, w.dirs[a], v, w.dirs[b], u) && PrivatePage(w.dirs[a], w.dirs[kern], v)
      ensures a == b && v == u
    {
      GiveEntry(w, w', kern, d, vp, q, a, v);
      GiveEntry(w, w', kern, d, vp, q, b, u);
      if !Clash(w.tables, w.dirs[a], v, w.dirs[b], u) { assert v == u == vp; }
    }
  }

  lemma GiveApart(w: World, w': World, kern: nat, d: nat, vp: nat, q: Page)
    requires Apart(w, kern) && Gives(w, w', d, vp, q)
    ensures Apart(w', kern)
  {
    forall e | e in w'.dirs ensures Sound(w', w'.dirs[kern], w'.dirs[e]) { GiveSound(w, w', kern, d, vp, q, e); }
    forall a, b | a in w'.dirs && b in w'.dirs ensures Pair(w', w'.dirs[kern], a, b) {
      assert Pair(w, w.dirs[kern], a, b);
      GiveFrames(w, w', kern, d, vp, q, a, b);
    }
  }

  // ---------------------------------------------------------------- runs

  lemma StepApart(w: World, a: Event, w': World, kern: nat)
    requires Apart(w, kern) && Next(w, a, w', kern)
    ensures Apart(w', kern)
  {
    match a {
      case Forked(cur, child, owner) => ForkApart(w, w', kern, cur, child, owner);
      case Grew(d, i, t) => GrowApart(w, w', kern, d, i, t);
      case Gave(d, vp, q) => GiveApart(w, w', kern, d, vp, q);
      case Stored(_, _, _, _) =>
        forall d | d in w'.dirs ensures Sound(w', w'.dirs[kern], w'.dirs[d]) {
          assert Sound(w, w.dirs[kern], w.dirs[d]);
        }
        forall a, b | a in w'.dirs && b in w'.dirs ensures Pair(w', w'.dirs[kern], a, b) {
          assert Pair(w, w.dirs[kern], a, b);
        }
    }
  }

  /** No step takes a private page from a directory or moves it to another frame, and none
      but a store to that very page changes what it holds. */
  lemma StepKeeps(w: World, a: Event, w': World, kern: nat, d: nat, v: nat)
    requires Kept(w, kern) && Next(w, a, w', kern) && Owns(w, kern, d, v)
    ensures Owns(w', kern, d, v)
    ensures var f := Entry(w.tables, w.dirs[d], v).frame;
            && Entry(w'.tables, w'.dirs[d], v).frame == f
            && At(w'.phys, f) == Replayed(At(w.phys, f), a, d, v)
  {
    assert Sound(w, w.dirs[kern], w.dirs[d]);
    match a {
      case Forked(cur, child, owner) => ForkSound(w, w', kern, cur, child, owner, d);
      case Grew(e, i, t) =>
        GrowEntry(w, w', kern, e, i, t, d, v);
        GrowPrivate(w, w', kern, e, i, t, d, v / ENTRIES);
      case Gave(e, vp, q) => GiveEntry(w, w', kern, e, vp, q, d, v);
      case Stored(e, u, at, byte) =>
        assert Pair(w, w.dirs[kern], d, e);
        assert Clash(w.tables, w.dirs[d], v, w.dirs[e], u) ==> d == e && v == u;
    }
  }

  /** What a step makes of a private page of `d`. */
  function Replayed(bytes: seq<nat>, a: Event, d: nat, v: nat): seq<nat> {
    if a.Stored? && a.d == d && a.vp == v && a.at < |bytes| then bytes[a.at := a.byte] else bytes
  }

  /** What the stores to one page alone make of its bytes. */
  function Replay(bytes: seq<nat>, run: seq<Event>, d: nat, v: nat): seq<nat> {
    if run == [] then bytes
    else Replayed(Replay(bytes, run[..|run| - 1], d, v), run[|run| - 1], d, v)
  }

  lemma StepNonZero(w: World, a: Event, w': World, kern: nat)
    requires Kept(w, kern) && Next(w, a, w', kern)
    ensures NonZero(w', kern)
  {
    forall d, v | d in w'.dirs && Owns(w', kern, d, v) ensures Entry(w'.tables, w'.dirs[d], v).frame != 0 {
      if Owns(w, kern, d, v) {
        StepKeeps(w, a, w', kern, d, v);
      } else {
        NewPage(w, a, w', kern, d, v);
      }
    }
  }

  /** A page that becomes private or present gets a frame that was free. */
  lemma NewPage(w: World, a: Event, w': World, kern: nat, d: nat, v: nat)
    requires Apart(w, kern) && Next(w, a, w', kern) && d in w'.dirs && Owns(w', kern, d, v) && !Owns(w, kern, d, v)
    ensures Entry(w'.tables, w'.dirs[d], v).frame in w.free
  {
    if d in w.dirs { assert Sound(w, w.dirs[kern], w.dirs[d]); }
    match a {
      case Forked(cur, child, owner) =>
        ForkIsCopy(w, w', kern, cur, child, owner);
        if d == child {
          var s0, s := SpaceOf(w, map[]), SpaceOf(w', owner);
          CopyPrivate(s0, s, w.dirs[cur], w.dirs[kern], w'.dirs[child], v);
          PrivatePageCopied(s0, s, w.dirs[cur], w.dirs[kern], w'.dirs[child], v);
        } else {
          ForkSound(w, w', kern, cur, child, owner, d);
        }
      case Grew(e, i, t) =>
        GrowEntry(w, w', kern, e, i, t, d, v);
        GrowPrivate(w, w', kern, e, i, t, d, v / ENTRIES);
      case Gave(e, vp, q) => GiveEntry(w, w', kern, e, vp, q, d, v);
      case Stored(_, _, _, _) =>
    }
  }

  /** Directory `d` has a present page `v` in a table that is not the kernel's. */
  ghost predicate OwnPage(w: World, kern: nat, d: nat, v: nat) {
    && kern in w.dirs && d in w.dirs && v / 1024 < |w.dirs[d]| && v / 1024 < |w.dirs[kern]|
    && w.dirs[d][v / 1024] != w.dirs[kern][v / 1024] && Entry(w.tables, w.dirs[d], v).present
  }

  lemma OwnPageIff(w: World, kern: nat, d: nat, v: nat)
    requires Apart(w, kern)
    ensures OwnPage(w, kern, d, v) <==> Owns(w, kern, d, v)
  {
    assert Sound(w, w.dirs[kern], w.dirs[kern]);
    if d in w.dirs { assert Sound(w, w.dirs[kern], w.dirs[d]); }
  }

  /** The worlds of a run and the events between them. */
  ghost predicate Trace(ws: seq<World>, run: seq<Event>, kern: nat) {
    |ws| == |run| + 1 && forall k: nat | k < |run| :: Next(ws[k], run[k], ws[k + 1], kern)
  }

  /** Whatever happens, in any order. */
  lemma {:induction false} RunKept(ws: seq<World>, run: seq<Event>, kern: nat, k: nat)
    requires Trace(ws, run, kern) && Kept(ws[0], kern) && k <= |run|
    ensures Kept(ws[k], kern)
  {
    if k > 0 {
      RunKept(ws, run, kern, k - 1);
      var j: nat := k - 1;
      assert Next(ws[j], run[j], ws[j + 1], kern);
      StepApart(ws[j], run[j], ws[k], kern);
      StepNonZero(ws[j], run[j], ws[k], kern);
    }
  }

  /** In every state of every run: no present page of any directory is in the frame of a
      private page of a directory, but that page itself. */
  lemma NeverShared(ws: seq<World>, run: seq<Event>, kern: nat, k: nat, d: nat, v: nat, e: nat, u: nat)
    requires Trace(ws, run, kern) && Start(ws[0], kern) && k <= |run|
    requires OwnPage(ws[k], kern, d, v) && e in ws[k].dirs
    requires Clash(ws[k].tables, ws[k].dirs[d], v, ws[k].dirs[e], u)
    ensures d == e && v == u
  {
    StartApart(ws[0], kern);
    RunKept(ws, run, kern, k);
    OwnPageIff(ws[k], kern, d, v);
    assert Pair(ws[k], ws[k].dirs[kern], d, e);
  }

  lemma TracePrefix(ws: seq<World>, run: seq<Event>, kern: nat, n: nat)
    requires Trace(ws, run, kern) && n == |run| - 1
    ensures Trace(ws[..n + 1], run[..n], kern) && Next(ws[n], run[n], ws[n + 1], kern)
  {
    forall k: nat | k < n ensures Next(ws[..n + 1][k], run[..n][k], ws[..n + 1][k + 1], kern) {
      assert Next(ws[k], run[k], ws[k + 1], kern);
    }
  }

  /** Whatever everyone else forks, is given or stores, a private page stays in its frame and
      holds what the stores to it make of what it held. */
  lemma {:induction false} PrivateContents(ws: seq<World>, run: seq<Event>, kern: nat, d: nat, v: nat)
    requires Trace(ws, run, kern) && Kept(ws[0], kern) && OwnPage(ws[0], kern, d, v)
    ensures var w, w' := ws[0], ws[|run|];
            var f := Entry(w.tables, w.dirs[d], v).frame;
            && OwnPage(w', kern, d, v) && Entry(w'.tables, w'.dirs[d], v).frame == f
            && At(w'.phys, f) == Replay(At(w.phys, f), run, d, v)
    decreases |run|
  {
    if run != [] {
      var n: nat := |run| - 1;
      TracePrefix(ws, run, kern, n);
      PrivateContents(ws[..n + 1], run[..n], kern, d, v);
      RunKept(ws, run, kern, n);
      OwnPageIff(ws[n], kern, d, v);
      StepKeeps(ws[n], run[n], ws[n + 1], kern, d, v);
      RunKept(ws, run, kern, n + 1);
      OwnPageIff(ws[n + 1], kern, d, v);
    }
  }

  // ---------------------------------------------------------------- the kernel's own steps

  ghost function View(m: Mmu): World
    reads m, m.frames.words
  {
    World(m.tables, m.dirs, m.frames.Free(), m.phys)
  }

  /** init_paging on a machine that was just switched on. */
  method Boot(words: nat, end: nat) returns (m: Mmu, kern: nat, cur: nat, ok: bool)
    requires end + PAGE_SIZE < 0x1_0000_0000 && end < words * 32 * PAGE_SIZE
    ensures ok ==> m.Valid() && m.Taken() && Start(View(m), kern) && cur in m.dirs
    ensures !ok ==> m.frames.Free() == {}
  {
    m := new Mmu(words);
    kern, cur, ok := m.InitPaging(end);
    if ok {
      assert Entry(m.tables, m.dirs[cur], 0) == Page(true, false, false, 0);
    }
  }

  /** A fork of any directory there is: all it needs is frames for the private pages. */
  method ForkSpace(m: Mmu, cur: nat, kern: nat) returns (child: nat, ghost owner: map<nat, nat>)
    requires m.Valid() && Kept(View(m), kern) && cur in m.dirs
    requires |m.frames.Free()| >= NeedFrom(m.tables, m.dirs[cur], m.dirs[kern], 0)
    modifies m`tables, m`dirs, m`heap, m`phys, m.frames.words
    ensures m.Valid() && Next(old(View(m)), Forked(cur, child, owner), View(m), kern) && Kept(View(m), kern)
  {
    ghost var w := View(m);
    assert Sound(w, w.dirs[kern], w.dirs[cur]);
    child, owner := m.DuplicateCurrentPageDirectory(cur, kern);
    OneStep(w, Forked(cur, child, owner), View(m), kern);
  }

  /** flagforce_alloc_frame: an entry without a frame gets the least free one, an entry that
      has one gets the flags. */
  method FlagForceAllocFrame(m: Mmu, t: nat, j: nat, kernel: bool, writable: bool) returns (r: int)
    requires t in m.tables && j < |m.tables[t].pages|
    modifies m`tables, m.frames.words
    ensures t in m.tables && j < |m.tables[t].pages|
    ensures r == if old(m.tables)[t].pages[j].frame == 0 && old(m.frames.Free()) == {} then -1 else 0
    ensures r != 0 ==> m.tables == old(m.tables) && m.frames.Free() == old(m.frames.Free())
    ensures r == 0 ==>
              var p, q := old(m.tables)[t].pages[j], m.tables[t].pages[j];
              && q.rw == writable && q.user == !kernel && Filled(p, q, old(m.frames.Free()), m.frames.Free())
              && (p.frame == 0 ==> forall g | g in old(m.frames.Free()) :: q.frame <= g)
              && m.tables == PutPage(old(m.tables), t, j, q)
  {
    var ret := m.AllocFrame(t, j, kernel, writable);
    if ret == -1 {
      m.tables := PutPage(m.tables, t, j, m.tables[t].pages[j].(rw := writable, user := !kernel));
    } else if ret == -2 {
      return -1;
    }
    return 0;
  }

  lemma TraceSnoc(ws: seq<World>, run: seq<Event>, kern: nat, a: Event, w: World)
    requires Trace(ws, run, kern) && Next(ws[|run|], a, w, kern)
    ensures Trace(ws + [w], run + [a], kern)
  {
    forall k: nat | k < |run| + 1 ensures Next((ws + [w])[k], (run + [a])[k], (ws + [w])[k + 1], kern) {
      if k < |run| { assert Next(ws[k], run[k], ws[k + 1], kern); }
    }
  }

  /** The run of one step. */
  lemma OneStep(w: World, a: Event, w': World, kern: nat)
    requires Kept(w, kern) && Next(w, a, w', kern)
    ensures Kept(w', kern) && Trace([w, w'], [a], kern)
  {
    StepApart(w, a, w', kern);
    StepNonZero(w, a, w', kern);
    TraceSnoc([w], [], kern, a, w');
  }

  /** get_page of a page table that may be missing. */
  method RoundTable(m: Mmu, va: nat, d: nat, ghost kern: nat)
    returns (t: nat, ghost ws: seq<World>, ghost run: seq<Event>)
    requires m.Valid() && Kept(View(m), kern) && d in m.dirs && va < 0x1_0000_0000
    modifies m`tables, m`dirs, m`heap
    ensures m.Valid() && d in m.dirs && t == m.dirs[d][va / PAGE_SIZE / ENTRIES] != 0
    ensures Kept(View(m), kern) && Trace(ws, run, kern) && ws[0] == old(View(m)) && ws[|run|] == View(m)
  {
    ghost var w0, i := View(m), va / PAGE_SIZE / ENTRIES;
    t := m.GetPage(va, true, d);
    ws, run := [w0], [];
    if w0.dirs[d][i] == 0 {
      OneStep(w0, Grew(d, i, t), View(m), kern);
      ws, run := [w0, View(m)], [Grew(d, i, t)];
    }
  }

  /** A frame for the entry of a page whose table is there. */
  method RoundFrame(m: Mmu, vp: nat, kernel: bool, writable: bool, d: nat, t: nat, ghost kern: nat)
    returns (r: int, ghost q: Page)
    requires m.Valid() && Kept(View(m), kern) && d in m.dirs && vp / ENTRIES < ENTRIES
    requires t == m.dirs[d][vp / ENTRIES] != 0
    modifies m`tables, m.frames.words
    ensures m.Valid() && Kept(View(m), kern)
    ensures if r == 0 then Next(old(View(m)), Gave(d, vp, q), View(m), kern) else View(m) == old(View(m))
    ensures m.dirs == old(m.dirs) && (r == 0 <==> Entry(m.tables, m.dirs[d], vp).frame != 0)
    ensures r == 0 ==> var e := Entry(m.tables, m.dirs[d], vp); e.rw == writable && e.user == !kernel
    ensures r != 0 ==> m.frames.Free() == {}
  {
    ghost var w := View(m);
    r := FlagForceAllocFrame(m, t, vp % ENTRIES, kernel, writable);
    q := m.tables[t].pages[vp % ENTRIES];
    assert Sound(w, w.dirs[kern], w.dirs[d]);
    if r == 0 {
      PutPageEntry(w.tables, w.dirs[d], vp, q, vp);
      OneStep(w, Gave(d, vp, q), View(m), kern);
      forall e | e in m.dirs ensures DirOk(m.tables, m.dirs[e]) {
        PutKeepsDir(w.tables, t, vp % ENTRIES, q, m.dirs[e]);
      }
    }
  }

  /** One round of map_memory_block is a run: a page table is made if there is none, and then
      the page has a frame, with the flags asked for, unless it had none and none is left. */
  method MapRound(m: Mmu, va: nat, kernel: bool, writable: bool, d: nat, ghost kern: nat)
    returns (ghost ws: seq<World>, ghost run: seq<Event>)
    requires m.Valid() && Kept(View(m), kern) && d in m.dirs && va < 0x1_0000_0000
    modifies m`tables, m`dirs, m`heap, m.frames.words
    ensures m.Valid() && Kept(View(m), kern) && d in m.dirs
    ensures Trace(ws, run, kern) && ws[0] == old(View(m)) && ws[|run|] == View(m)
    ensures var e := Entry(m.tables, m.dirs[d], va / PAGE_SIZE);
            if e.frame != 0 then e.rw == writable && e.user == !kernel else m.frames.Free() == {}
  {
    var t;
    t, ws, run := RoundTable(m, va, d, kern);
    var r;
    ghost var q;
    r, q := RoundFrame(m, va / PAGE_SIZE, kernel, writable, d, t, kern);
    if r == 0 {
      TraceSnoc(ws, run, kern, Gave(d, va / PAGE_SIZE, q), View(m));
      ws, run := ws + [View(m)], run + [Gave(d, va / PAGE_SIZE, q)];
    }
  }
}
