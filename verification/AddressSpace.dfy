/** What a copy of an address space is worth: the copy reads like the original, owns the
    frames of its private pages, and from then on neither side sees the stores of the
    other.  Everything here is about a directory copied by
    duplicate_current_page_directory, that is, about DirProgress up to the last slot. */
module AddressSpace {
  import opened Paging

  ghost predicate IsCopy(s0: Space, s: Space, cur: Directory, kern: Directory, dir: Directory) {
    DirProgress(s0, s, cur, kern, dir, ENTRIES) && InUse(s0.tables, cur, s0.free)
  }

  predicate PrivatePage(cur: Directory, kern: Directory, vp: nat)
    requires |cur| == |kern| == ENTRIES
  {
    vp / ENTRIES < ENTRIES && Private(cur, kern, vp / ENTRIES)
  }

  /** The original is as it was. */
  lemma OriginalKept(s0: Space, s: Space, cur: Directory, kern: Directory, dir: Directory, vp: nat)
    requires IsCopy(s0, s, cur, kern, dir)
    ensures var p := Entry(s0.tables, cur, vp);
            Entry(s.tables, cur, vp) == p && (p.present ==> At(s.phys, p.frame) == At(s0.phys, p.frame))
  {
  }

  /** A page of a table that the kernel shares is the same page in both. */
  lemma SharedPage(s0: Space, s: Space, cur: Directory, kern: Directory, dir: Directory, vp: nat)
    requires IsCopy(s0, s, cur, kern, dir) && vp / ENTRIES < ENTRIES && !PrivatePage(cur, kern, vp)
    ensures dir[vp / ENTRIES] == cur[vp / ENTRIES] && Entry(s.tables, dir, vp) == Entry(s.tables, cur, vp)
  {
    assert SlotCopied(s0.tables, cur, kern, vp / ENTRIES, s.tables, dir, s0.phys, s.phys, s0.free, s.owner);
  }

  /** A private page is present in the copy exactly when it is in the original, with the
      same flags and bytes, in a frame that was free and that is its own. */
  lemma PrivatePageCopied(s0: Space, s: Space, cur: Directory, kern: Directory, dir: Directory, vp: nat)
    requires IsCopy(s0, s, cur, kern, dir) && PrivatePage(cur, kern, vp)
    ensures var p, q := Entry(s0.tables, cur, vp), Entry(s.tables, dir, vp);
            && q.present == p.present
            && (p.present ==>
                  && q.rw == p.rw && q.user == p.user && At(s.phys, q.frame) == At(s0.phys, p.frame)
                  && q.frame in s0.free && q.frame !in s.free && q.frame in s.owner && s.owner[q.frame] == vp)
  {
    var i, j := vp / ENTRIES, vp % ENTRIES;
    assert SlotCopied(s0.tables, cur, kern, i, s.tables, dir, s0.phys, s.phys, s0.free, s.owner);
    assert i * ENTRIES + j == vp;
    var src, dst := s0.tables[cur[i]].pages, s.tables[dir[i]].pages;
    assert PageCopied(src[j], dst[j], i * ENTRIES + j, s0.phys, s.phys, s0.free, s.owner);
  }

  /** For every page, whichever kind it is: it is present in the copy exactly when it is in
      the original, with the same flags and the same bytes; and it has the original's frame
      if its table is the kernel's, and one that was free otherwise. */
  lemma CopyFaithful(s0: Space, s: Space, cur: Directory, kern: Directory, dir: Directory, vp: nat)
    requires IsCopy(s0, s, cur, kern, dir) && vp / 1024 < 1024
    ensures |cur| == |kern| == 1024
    ensures var p, q := Entry(s0.tables, cur, vp), Entry(s.tables, dir, vp);
            && q.present == p.present
            && (p.present ==>
                  && q.rw == p.rw && q.user == p.user && At(s.phys, q.frame) == At(s0.phys, p.frame)
                  && if cur[vp / 1024] == kern[vp / 1024] then q.frame == p.frame else q.frame in s0.free)
  {
    OriginalKept(s0, s, cur, kern, dir, vp);
    if PrivatePage(cur, kern, vp) {
      PrivatePageCopied(s0, s, cur, kern, dir, vp);
    } else {
      SharedPage(s0, s, cur, kern, dir, vp);
    }
  }

  /** No other page of the copy, and no page of any directory there was, has the frame of a
      private page. */
  lemma FramesNotShared(s0: Space, s: Space, cur: Directory, kern: Directory, dir: Directory, vp: nat,
                        other: Directory, v: nat)
    requires IsCopy(s0, s, cur, kern, dir) && PrivatePage(cur, kern, vp) && Entry(s.tables, dir, vp).present
    ensures v != vp && Entry(s.tables, dir, v).present ==>
              Entry(s.tables, dir, v).frame != Entry(s.tables, dir, vp).frame
    ensures DirOk(s0.tables, other) && InUse(s0.tables, other, s0.free) && Entry(s.tables, other, v).present ==>
              Entry(s.tables, other, v).frame != Entry(s.tables, dir, vp).frame
  {
    PrivatePageCopied(s0, s, cur, kern, dir, vp);
    if v != vp && Entry(s.tables, dir, v).present {
      if PrivatePage(cur, kern, v) {
        PrivatePageCopied(s0, s, cur, kern, dir, v);
      } else {
        SharedPage(s0, s, cur, kern, dir, v);
        OriginalKept(s0, s, cur, kern, dir, v);
      }
    }
    if DirOk(s0.tables, other) { OtherDir(s0.tables, s.tables, other, v); }
  }

  /** The copy and every directory there was keep to taken frames. */
  lemma CopyInUse(s0: Space, s: Space, cur: Directory, kern: Directory, dir: Directory, other: Directory)
    requires IsCopy(s0, s, cur, kern, dir)
    ensures InUse(s.tables, dir, s.free)
    ensures DirOk(s0.tables, other) && InUse(s0.tables, other, s0.free) ==> InUse(s.tables, other, s.free)
  {
    forall v: nat | Entry(s.tables, dir, v).present ensures Entry(s.tables, dir, v).frame !in s.free {
      if PrivatePage(cur, kern, v) {
        PrivatePageCopied(s0, s, cur, kern, dir, v);
      } else {
        SharedPage(s0, s, cur, kern, dir, v);
        OriginalKept(s0, s, cur, kern, dir, v);
      }
    }
    if DirOk(s0.tables, other) && InUse(s0.tables, other, s0.free) {
      forall v: nat | Entry(s.tables, other, v).present ensures Entry(s.tables, other, v).frame !in s.free {
        OtherDir(s0.tables, s.tables, other, v);
      }
    }
  }

  // ---------------------------------------------------------------- isolation

  /** A store of one byte, through the copy (`child`) or through the original. */
  datatype Store = Store(child: bool, vp: nat, at: nat, byte: nat)

  function Poke(m: Memory, f: nat, at: nat, byte: nat): Memory {
    var bytes := At(m, f);
    m[f := if at < |bytes| then bytes[at := byte] else bytes]
  }

  function FrameOf(tables: Tables, cur: Directory, dir: Directory, w: Store): nat {
    Entry(tables, if w.child then dir else cur, w.vp).frame
  }

  function Run(m: Memory, tables: Tables, cur: Directory, dir: Directory, ws: seq<Store>): Memory {
    if ws == [] then m
    else
      var w := ws[|ws| - 1];
      Poke(Run(m, tables, cur, dir, ws[..|ws| - 1]), FrameOf(tables, cur, dir, w), w.at, w.byte)
  }

  /** The stores of one side. */
  function Only(ws: seq<Store>, child: bool): seq<Store> {
    if ws == [] then []
    else Only(ws[..|ws| - 1], child) + if ws[|ws| - 1].child == child then [ws[|ws| - 1]] else []
  }

  /** Stores go to present pages; those through the copy go to private ones, for a page of
      the kernel's tables is the same page in both. */
  ghost predicate Legal(s: Space, cur: Directory, kern: Directory, dir: Directory, ws: seq<Store>)
    requires |cur| == |kern| == ENTRIES
  {
    forall w | w in ws ::
      && Entry(s.tables, if w.child then dir else cur, w.vp).present
      && (w.child ==> PrivatePage(cur, kern, w.vp))
  }

  lemma RunSnoc(m: Memory, tables: Tables, cur: Directory, dir: Directory, ws: seq<Store>, w: Store)
    ensures Run(m, tables, cur, dir, ws + [w]) ==
            Poke(Run(m, tables, cur, dir, ws), FrameOf(tables, cur, dir, w), w.at, w.byte)
  {
    assert (ws + [w])[..|ws|] == ws;
  }

  /** A store changes one frame, and what it makes of that depends on nothing else. */
  lemma PokeAt(m: Memory, m': Memory, g: nat, at: nat, byte: nat, f: nat)
    requires At(m, f) == At(m', f)
    ensures At(Poke(m, g, at, byte), f) == At(Poke(m', g, at, byte), f)
    ensures f != g ==> At(Poke(m, g, at, byte), f) == At(m, f)
  {
  }

  lemma {:induction false} OnlyOneSide(m: Memory, tables: Tables, cur: Directory, dir: Directory, ws: seq<Store>,
                                       taken: set<nat>, f: nat)
    requires forall w | w in ws :: w.child <==> FrameOf(tables, cur, dir, w) in taken
    ensures At(Run(m, tables, cur, dir, ws), f) == At(Run(m, tables, cur, dir, Only(ws, f in taken)), f)
  {
    if ws != [] {
      var ws', w := ws[..|ws| - 1], ws[|ws| - 1];
      assert w in ws && forall x | x in ws' :: x in ws;
      OnlyOneSide(m, tables, cur, dir, ws', taken, f);
      var only := Only(ws', f in taken);
      var m1, m2 := Run(m, tables, cur, dir, ws'), Run(m, tables, cur, dir, only);
      PokeAt(m1, m2, FrameOf(tables, cur, dir, w), w.at, w.byte, f);
      if w.child == (f in taken) {
        RunSnoc(m, tables, cur, dir, only, w);
      } else {
        assert Only(ws, f in taken) == only;
      }
    }
  }

  /** However the stores of the two sides interleave, what a page of the original holds is
      what the stores through the original alone would have made of it, and what a private
      page of the copy holds is what the stores through the copy alone would have. */
  lemma Isolation(s0: Space, s: Space, cur: Directory, kern: Directory, dir: Directory, ws: seq<Store>, vp: nat)
    requires IsCopy(s0, s, cur, kern, dir) && Legal(s, cur, kern, dir, ws)
    ensures var p, q := Entry(s.tables, cur, vp), Entry(s.tables, dir, vp);
            && (p.present ==> At(Run(s.phys, s.tables, cur, dir, ws), p.frame) ==
                              At(Run(s.phys, s.tables, cur, dir, Only(ws, false)), p.frame))
            && (PrivatePage(cur, kern, vp) && q.present ==>
                  At(Run(s.phys, s.tables, cur, dir, ws), q.frame) ==
                  At(Run(s.phys, s.tables, cur, dir, Only(ws, true)), q.frame))
  {
    forall w | w in ws ensures w.child <==> FrameOf(s.tables, cur, dir, w) in s0.free {
      OriginalKept(s0, s, cur, kern, dir, w.vp);
      if w.child { PrivatePageCopied(s0, s, cur, kern, dir, w.vp); }
    }
    var p, q := Entry(s.tables, cur, vp), Entry(s.tables, dir, vp);
    OriginalKept(s0, s, cur, kern, dir, vp);
    if p.present { OnlyOneSide(s.phys, s.tables, cur, dir, ws, s0.free, p.frame); }
    if PrivatePage(cur, kern, vp) && q.present {
      PrivatePageCopied(s0, s, cur, kern, dir, vp);
      OnlyOneSide(s.phys, s.tables, cur, dir, ws, s0.free, q.frame);
    }
  }
}
