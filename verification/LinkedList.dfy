/** The allocator of kernel/mm/linkedlist.c with its two intrusive doubly linked lists,
    refined against `Arena`.

    Headers live in memory: `mem` maps an address to the three words of the node there,
    and address 0 is the null pointer.  The ghost sequences `used` and `free` hold the
    addresses on the two lists in list order. */
module LinkedList {
  import opened Basics
  import opened Lists
  import opened Arena

  const WORD: nat := 0x1_0000_0000  // size_t and offset_t are 32 bits wide

  datatype Node = Node(size: nat, next: nat, prev: nat)

  type Memory = map<nat, Node>

  function SetNext(m: Memory, a: nat, v: nat): Memory
    requires a in m
  {
    m[a := m[a].(next := v)]
  }

  function SetPrev(m: Memory, a: nat, v: nat): Memory
    requires a in m
  {
    m[a := m[a].(prev := v)]
  }

  function SetSize(m: Memory, a: nat, v: nat): Memory
    requires a in m
  {
    m[a := m[a].(size := v)]
  }

  // ---------------------------------------------------------------- linked lists in memory

  /** The nodes `s` are linked in both directions, between `before` and `after`. */
  predicate Segment(m: Memory, s: seq<nat>, before: nat, after: nat) {
    s == [] ||
    (&& s[0] != 0 && s[0] in m
     && m[s[0]].prev == before
     && m[s[0]].next == FirstOr(s[1..], after)
     && Segment(m, s[1..], s[0], after))
  }

  /** `head` starts a null-terminated, acyclic, doubly linked list through the nodes `s`. */
  predicate Linked(m: Memory, head: nat, s: seq<nat>) {
    head == FirstOr(s, 0) && NoDup(s) && Segment(m, s, 0, 0)
  }

  lemma {:induction false} SegmentConcat(m: Memory, a: seq<nat>, b: seq<nat>, before: nat, after: nat)
    ensures Segment(m, a + b, before, after) <==>
            Segment(m, a, before, FirstOr(b, after)) && Segment(m, b, LastOr(a, before), after)
  {
    if a == [] {
      assert a + b == b;
    } else {
      assert (a + b)[1..] == a[1..] + b;
      SegmentConcat(m, a[1..], b, a[0], after);
    }
  }

  /** A segment is cut around any of its nodes. */
  lemma SegmentMiddle(m: Memory, a: seq<nat>, x: nat, b: seq<nat>, before: nat, after: nat)
    ensures Segment(m, a + [x] + b, before, after) <==>
            && Segment(m, a, before, x)
            && x != 0 && x in m && m[x].prev == LastOr(a, before) && m[x].next == FirstOr(b, after)
            && Segment(m, b, x, after)
  {
    assert a + [x] + b == a + ([x] + b);
    SegmentConcat(m, a, [x] + b, before, after);
    assert ([x] + b)[1..] == b;
  }

  predicate SameLinks(m: Memory, m': Memory, a: nat) {
    a in m ==> a in m' && m'[a].next == m[a].next && m'[a].prev == m[a].prev
  }

  lemma {:induction false} SegmentFrame(m: Memory, m': Memory, s: seq<nat>, before: nat, after: nat)
    requires Segment(m, s, before, after) && forall a | a in s :: SameLinks(m, m', a)
    ensures Segment(m', s, before, after)
  {
    if s != [] {
      assert s[0] in s;
      SegmentFrame(m, m', s[1..], s[0], after);
    }
  }

  lemma {:induction false} SegmentMembers(m: Memory, s: seq<nat>, before: nat, after: nat, x: nat)
    requires Segment(m, s, before, after) && x in s
    ensures x != 0 && x in m
  {
    if x != s[0] {
      assert s == [s[0]] + s[1..];
      SegmentMembers(m, s[1..], s[0], after, x);
    }
  }

  lemma SegmentNoNull(m: Memory, s: seq<nat>)
    requires Segment(m, s, 0, 0)
    ensures 0 !in s
  {
    if 0 in s { SegmentMembers(m, s, 0, 0, 0); }
  }

  /** Redirecting the way out of a segment. */
  lemma SegmentSetAfter(m: Memory, s: seq<nat>, before: nat, after: nat, v: nat)
    requires Segment(m, s, before, after) && NoDup(s) && s != []
    ensures LastOr(s, 0) in m && Segment(SetNext(m, LastOr(s, 0), v), s, before, v)
  {
    var a, x := s[..|s| - 1], s[|s| - 1];
    assert s == a + [x] + [];
    NoDupMiddle(a, x, []);
    SegmentMiddle(m, a, x, [], before, after);
    SegmentFrame(m, SetNext(m, x, v), a, before, x);
    SegmentMiddle(SetNext(m, x, v), a, x, [], before, v);
  }

  /** Redirecting the way back into a segment. */
  lemma SegmentSetBefore(m: Memory, s: seq<nat>, before: nat, after: nat, v: nat)
    requires Segment(m, s, before, after) && NoDup(s) && s != []
    ensures s[0] in m && Segment(SetPrev(m, s[0], v), s, v, after)
  {
    SegmentFrame(m, SetPrev(m, s[0], v), s[1..], s[0], after);
  }

  /** Only links changed, and only those of nodes in `touched`. */
  ghost predicate Rewired(m: Memory, m': Memory, touched: seq<nat>) {
    && m'.Keys == m.Keys
    && (forall a | a in m :: m'[a].size == m[a].size)
    && (forall a | a in m && a !in touched :: m'[a] == m[a])
  }

  lemma LinkedFrame(m: Memory, m': Memory, head: nat, s: seq<nat>, touched: seq<nat>)
    requires Linked(m, head, s) && Rewired(m, m', touched) && (forall a | a in s :: a !in touched)
    ensures Linked(m', head, s)
  {
    SegmentFrame(m, m', s, 0, 0);
  }

  // ---------------------------------------------------------------- the four rewirings

  /** Linking `node` after the last node. */
  lemma LinkLast(m: Memory, s: seq<nat>, node: nat) returns (m': Memory)
    requires Segment(m, s, 0, 0) && NoDup(s) && s != [] && node in m && node !in s && node != 0
    ensures var last := LastOr(s, 0);
            && last in m
            && m' == SetNext(SetPrev(SetNext(m, last, node), node, last), node, 0)
            && Linked(m', FirstOr(s, 0), s + [node])
            && Rewired(m, m', s + [node])
  {
    var last := LastOr(s, 0);
    SegmentSetAfter(m, s, 0, 0, node);
    var m1 := SetNext(m, last, node);
    m' := SetNext(SetPrev(m1, node, last), node, 0);
    SegmentFrame(m1, m', s, 0, node);
    assert s + [node] == s + [node] + [];
    SegmentMiddle(m', s, node, [], 0, 0);
    assert s + [] == s;
    NoDupMiddle(s, node, []);
  }

  lemma LinkOnly(m: Memory, node: nat)
    requires node in m
    ensures var m' := SetPrev(SetNext(m, node, 0), node, 0);
            Linked(m', node, if node == 0 then [] else [node]) && Rewired(m, m', [node])
  {
  }

  lemma HeadNull(m: Memory, head: nat, s: seq<nat>)
    requires Linked(m, head, s)
    ensures head == 0 <==> s == []
    ensures s != [] ==> head == s[0] && s[0] in m
  {
    if s != [] { SegmentAt(m, s, 0); }
  }

  /** Linking the null pointer after the last node. */
  lemma LinkNull(m: Memory, s: seq<nat>)
    requires Segment(m, s, 0, 0) && NoDup(s) && s != [] && 0 in m
    ensures var last := LastOr(s, 0);
            && last in m
            && var m' := SetNext(SetPrev(SetNext(m, last, 0), 0, last), 0, 0);
            Linked(m', FirstOr(s, 0), s) && Rewired(m, m', s + [0])
  {
    var last := LastOr(s, 0);
    SegmentAt(m, s, |s| - 1);
    forall a | a in s ensures a != 0 { SegmentMembers(m, s, 0, 0, a); }
    SegmentFrame(m, SetNext(SetPrev(SetNext(m, last, 0), 0, last), 0, 0), s, 0, 0);
  }

  /** Linking `node` between `a` and `b`, where `b` is not empty. */
  lemma LinkBetween(m: Memory, a: seq<nat>, b: seq<nat>, node: nat) returns (m': Memory)
    requires Segment(m, a + b, 0, 0) && NoDup(a + b) && b != [] && node in m && node !in a + b && node != 0
    ensures a != [] ==> LastOr(a, 0) in m && LastOr(a, 0) != 0
    ensures b[0] in m && m[b[0]].prev == LastOr(a, 0)
    ensures var m1 := if a != [] then SetNext(m, LastOr(a, 0), node) else m;
            && m' == SetNext(SetPrev(SetPrev(m1, node, LastOr(a, 0)), b[0], node), node, b[0])
            && Linked(m', if a == [] then node else a[0], a + [node] + b)
            && Rewired(m, m', a + b + [node])
  {
    SegmentConcat(m, a, b, 0, 0);
    NoDupConcat(a, b);
    NoDupMiddle(a, node, b);
    var m1 := m;
    if a != [] {
      SegmentMembers(m, a, 0, b[0], LastOr(a, 0));
      SegmentSetAfter(m, a, 0, b[0], node);
      m1 := SetNext(m, LastOr(a, 0), node);
    }
    SegmentFrame(m, m1, b, LastOr(a, 0), 0);
    var m2 := SetPrev(m1, node, LastOr(a, 0));
    SegmentFrame(m1, m2, b, LastOr(a, 0), 0);
    SegmentSetBefore(m2, b, LastOr(a, 0), 0, node);
    m' := SetNext(SetPrev(m2, b[0], node), node, b[0]);
    SegmentFrame(SetPrev(m2, b[0], node), m', b, node, 0);
    SegmentFrame(m1, m', a, 0, node);
    SegmentMiddle(m', a, node, b, 0, 0);
  }

  /** Taking `node` out from between `a` and `b`; its own links are left behind. */
  lemma UnlinkBetween(m: Memory, a: seq<nat>, node: nat, b: seq<nat>) returns (m': Memory)
    requires Segment(m, a + [node] + b, 0, 0) && NoDup(a + [node] + b)
    ensures node in m && m[node].prev == LastOr(a, 0) && m[node].next == FirstOr(b, 0)
    ensures (a != [] ==> LastOr(a, 0) in m && LastOr(a, 0) != 0) && (b != [] ==> b[0] in m && b[0] != 0)
    ensures var m1 := if a != [] then SetNext(m, LastOr(a, 0), FirstOr(b, 0)) else m;
            && m' == (if b != [] then SetPrev(m1, b[0], LastOr(a, 0)) else m1)
            && Linked(m', FirstOr(a + b, 0), a + b) && node !in a + b
            && Rewired(m, m', a + [node] + b)
  {
    SegmentMiddle(m, a, node, b, 0, 0);
    NoDupMiddle(a, node, b);
    NoDupConcat(a, b);
    var m1 := m;
    if a != [] {
      SegmentMembers(m, a, 0, node, LastOr(a, 0));
      SegmentSetAfter(m, a, 0, node, FirstOr(b, 0));
      m1 := SetNext(m, LastOr(a, 0), FirstOr(b, 0));
    }
    SegmentFrame(m, m1, b, node, 0);
    m' := m1;
    if b != [] {
      SegmentSetBefore(m1, b, node, 0, LastOr(a, 0));
      m' := SetPrev(m1, b[0], LastOr(a, 0));
    }
    SegmentFrame(m1, m', a, 0, FirstOr(b, 0));
    SegmentConcat(m', a, b, 0, 0);
  }

  /** The words of one node of a list. */
  lemma SegmentAt(m: Memory, s: seq<nat>, k: nat)
    requires Segment(m, s, 0, 0) && k < |s|
    ensures s[k] != 0 && s[k] in m
    ensures m[s[k]].prev == LastOr(s[..k], 0) && m[s[k]].next == FirstOr(s[k + 1..], 0)
    ensures m[s[k]].next != 0 <==> k + 1 < |s|
    ensures k + 1 < |s| ==> m[s[k]].next == s[k + 1]
  {
    assert s == s[..k] + [s[k]] + s[k + 1..];
    SegmentMiddle(m, s[..k], s[k], s[k + 1..], 0, 0);
  }

  /** Two disjoint lists, the second cut around one of its nodes. */
  lemma SplitLists(s: seq<nat>, a: seq<nat>, node: nat, b: seq<nat>)
    requires NoDup(s + (a + [node] + b))
    ensures NoDup(s + [node] + (a + b))
    ensures node !in s && node !in a + b
    ensures forall x | x in s :: x !in a + [node] + b
    ensures forall x | x in a + b :: x !in s + [node]
  {
    NoDupConcat(s, a + [node] + b);
    NoDupMiddle(a, node, b);
    NoDupConcat(s, a + b);
    NoDupMiddle(s, node, a + b);
  }

  lemma SplitLists'(a: seq<nat>, node: nat, b: seq<nat>, s: seq<nat>)
    requires NoDup(a + [node] + b + s)
    ensures NoDup(a + b + s)
    ensures node !in s && node !in a + b
    ensures forall x | x in s :: x !in a + [node] + b
    ensures forall x | x in a + b :: x !in s + [node]
  {
    NoDupConcat(a + [node] + b, s);
    NoDupMiddle(a, node, b);
    NoDupConcat(a + b, s);
  }

  lemma InsertLists(s: seq<nat>, t: seq<nat>, p: nat, node: nat)
    requires NoDup(s + t) && p <= |t| && node !in s + t
    ensures NoDup(s + (t[..p] + [node] + t[p..]))
    ensures forall x | x in s + (t[..p] + [node] + t[p..]) :: x in s || x in t || x == node
  {
    assert s + t == (s + t[..p]) + t[p..];
    NoDupMiddle(s + t[..p], node, t[p..]);
    assert s + (t[..p] + [node] + t[p..]) == s + t[..p] + [node] + t[p..];
  }

  lemma BlocksSame(m: Memory, m': Memory, s: seq<nat>)
    requires (forall a | a in s :: a in m) && m'.Keys == m.Keys && forall a | a in m :: m'[a].size == m[a].size
    ensures BlocksOf(m', s) == BlocksOf(m, s)
  {
  }

  ghost function BlocksOf(m: Memory, s: seq<nat>): (r: seq<Block>)
    requires forall a | a in s :: a in m
    ensures |r| == |s|
  {
    if s == [] then [] else [Block(s[0], m[s[0]].size)] + BlocksOf(m, s[1..])
  }

  lemma {:induction false} BlocksAt(m: Memory, s: seq<nat>)
    requires forall a | a in s :: a in m
    ensures forall i | 0 <= i < |s| :: s[i] in m && BlocksOf(m, s)[i] == Block(s[i], m[s[i]].size)
  {
    if s != [] { BlocksAt(m, s[1..]); }
  }

  lemma BlocksRemove(m: Memory, m': Memory, s: seq<nat>, k: nat)
    requires k < |s| && (forall a | a in s :: a in m) && m'.Keys == m.Keys
    requires forall a | a in m :: m'[a].size == m[a].size
    ensures forall a | a in s[..k] + s[k + 1..] :: a in m'
    ensures BlocksOf(m', s[..k] + s[k + 1..]) == Without(BlocksOf(m, s), k)
  {
    var s' := s[..k] + s[k + 1..];
    BlocksAt(m, s);
    BlocksAt(m', s');
    var l, r := BlocksOf(m', s'), Without(BlocksOf(m, s), k);
    forall i | 0 <= i < |s'| ensures l[i] == r[i] { assert s'[i] == s[if i < k then i else i + 1]; }
    assert l == r;
  }

  lemma BlocksInsertAt(m: Memory, m': Memory, s: seq<nat>, p: nat, node: nat)
    requires p <= |s| && (forall a | a in s :: a in m) && node in m && m'.Keys == m.Keys
    requires forall a | a in m :: m'[a].size == m[a].size
    ensures forall a | a in s[..p] + [node] + s[p..] :: a in m'
    ensures BlocksOf(m', s[..p] + [node] + s[p..]) ==
            BlocksOf(m, s)[..p] + [Block(node, m[node].size)] + BlocksOf(m, s)[p..]
  {
    var bs, s' := BlocksOf(m, s), s[..p] + [node] + s[p..];
    BlocksAt(m, s);
    BlocksAt(m', s');
    var l, r := BlocksOf(m', s'), bs[..p] + [Block(node, m[node].size)] + bs[p..];
    forall i | 0 <= i < |s'| ensures l[i] == r[i] {
      if i < p {
        assert s'[i] == s[i];
      } else if i > p {
        assert s'[i] == s[i - 1];
      }
    }
    assert l == r;
  }

  lemma BlocksInsert(m: Memory, m': Memory, s: seq<nat>, p: nat, node: nat)
    requires (forall a | a in s :: a in m) && node in m && m'.Keys == m.Keys
    requires forall a | a in m :: m'[a].size == m[a].size
    requires p == InsertPos(BlocksOf(m, s), m[node].size)
    ensures forall a | a in s[..p] + [node] + s[p..] :: a in m'
    ensures BlocksOf(m', s[..p] + [node] + s[p..]) == InsertBySize(BlocksOf(m, s), Block(node, m[node].size))
  {
    BlocksInsertAt(m, m', s, p, node);
  }

  lemma BlocksAppend(m: Memory, m': Memory, s: seq<nat>, node: nat)
    requires (forall a | a in s + [node] :: a in m && a in m' && m'[a].size == m[a].size)
    ensures BlocksOf(m', s + [node]) == BlocksOf(m, s) + [Block(node, m[node].size)]
  {
    BlocksAt(m, s);
    BlocksAt(m', s + [node]);
    var l, r := BlocksOf(m', s + [node]), BlocksOf(m, s) + [Block(node, m[node].size)];
    forall i | 0 <= i < |s| + 1 ensures l[i] == r[i] {
      if i < |s| { assert (s + [node])[i] == s[i]; }
    }
    assert l == r;
  }

  /** Every header lies before the end of the heap. */
  lemma HeadersBelowEnd(m: Memory, used: seq<nat>, free: seq<nat>, h: Heap)
    requires (forall a | a in used :: a in m) && (forall a | a in free :: a in m)
    requires Inv(h) && h.used == BlocksOf(m, used) && h.free == BlocksOf(m, free)
    ensures forall a | a in used :: a < h.End()
    ensures forall a | a in free :: a < h.End()
  {
    forall a | a in used || a in free ensures a < h.End() {
      BlockListed(m, used, free, h, a);
      InvBounds(h, Block(a, m[a].size));
    }
  }

  /** Freeing by payload address: the header of a payload below the first header size
      would lie at the top of the address space, where there is no block. */
  lemma FreePayload(h: Heap, p: nat, node: nat)
    requires Inv(h) && h.End() + PAGE < WORD && p < WORD && node == U32(p + WORD - HEADER)
    ensures FreeNode(h, node).Some? <==> exists b :: b in h.used && b.Payload() == p
    ensures FreeNode(h, node).Some? ==> p >= HEADER && node == p - HEADER
  {
    FreeNodeSucceedsIff(h, node);
    forall b | b in h.used ensures b.Payload() == p <==> b.addr == node { InvBounds(h, b); }
  }

  /** No header lies inside the payload of a block. */
  lemma FreshInside(m: Memory, used: seq<nat>, free: seq<nat>, h: Heap, node: nat, x: nat)
    requires (forall a | a in used :: a in m) && (forall a | a in free :: a in m)
    requires Inv(h) && h.used == BlocksOf(m, used) && h.free == BlocksOf(m, free)
    requires (node in used || node in free) && node < x < node + HEADER + m[node].size
    ensures x !in used && x !in free
  {
    BlockListed(m, used, free, h, node);
    NoBlockAt(h, x);
    if x in used || x in free { BlockListed(m, used, free, h, x); }
  }

  /** The place of the second header of a split. */
  predicate CutFits(m: Memory, used: seq<nat>, free: seq<nat>, n: nat, a: nat) {
    a in m && m[a].size >= n + MIN_PAYLOAD + HEADER ==> a + n + HEADER !in used && a + n + HEADER !in free
  }

  lemma CutsAreFresh(m: Memory, used: seq<nat>, free: seq<nat>, h: Heap, n: nat)
    requires (forall a | a in used :: a in m) && (forall a | a in free :: a in m)
    requires Inv(h) && h.used == BlocksOf(m, used) && h.free == BlocksOf(m, free)
    ensures forall a | a in free :: CutFits(m, used, free, n, a)
  {
    forall a | a in free ensures CutFits(m, used, free, n, a) {
      if m[a].size >= n + MIN_PAYLOAD + HEADER { FreshInside(m, used, free, h, a, a + n + HEADER); }
    }
  }

  lemma BlockListed(m: Memory, used: seq<nat>, free: seq<nat>, h: Heap, x: nat)
    requires (forall a | a in used :: a in m) && (forall a | a in free :: a in m)
    requires h.used == BlocksOf(m, used) && h.free == BlocksOf(m, free) && (x in used || x in free)
    ensures x in m && Block(x, m[x].size) in h.Blocks()
  {
    BlocksAt(m, used);
    BlocksAt(m, free);
    if x in used {
      var i :| 0 <= i < |used| && used[i] == x;
      assert h.used[i] == Block(x, m[x].size);
    } else {
      var i :| 0 <= i < |free| && free[i] == x;
      assert h.free[i] == Block(x, m[x].size);
    }
  }

  lemma {:induction false} BlocksFrame(m: Memory, m': Memory, s: seq<nat>)
    requires forall a | a in s :: a in m && a in m' && m'[a] == m[a]
    ensures BlocksOf(m', s) == BlocksOf(m, s)
  {
    if s != [] { BlocksFrame(m, m', s[1..]); }
  }

  /** Writing a header outside the lists and a new size leaves all links alone. */
  ghost predicate Cut(m: Memory, m': Memory, node: nat, newnode: nat) {
    && node in m && newnode != node
    && m'.Keys == m.Keys + {newnode}
    && m'[node].next == m[node].next && m'[node].prev == m[node].prev
    && forall a | a in m && a != node && a != newnode :: m'[a] == m[a]
  }

  lemma CutLinks(m: Memory, m': Memory, node: nat, newnode: nat, s: seq<nat>)
    requires Segment(m, s, 0, 0) && newnode !in s && Cut(m, m', node, newnode)
    ensures Segment(m', s, 0, 0)
  {
    SegmentFrame(m, m', s, 0, 0);
  }

  lemma {:induction false} CutBlocks(m: Memory, m': Memory, node: nat, newnode: nat, s: seq<nat>)
    requires (forall a | a in s :: a in m) && node !in s && newnode !in s && Cut(m, m', node, newnode)
    ensures BlocksOf(m', s) == BlocksOf(m, s)
  {
    if s != [] { CutBlocks(m, m', node, newnode, s[1..]); }
  }

  lemma TakeAll(h: Heap, k: nat, n: nat, h': Heap)
    requires k < |h.free| && n <= h.free[k].size < n + MIN_PAYLOAD + HEADER
    requires h'.start == h.start && h'.max == h.max && h'.cur == h.cur
    requires h'.used == h.used + [h.free[k]] && h'.free == Without(h.free, k)
    ensures h' == Take(h, k, n)
  {
  }

  lemma TakeCut(h: Heap, k: nat, n: nat, h': Heap, rest: seq<Block>, cut: Block)
    requires k < |h.free| && h.free[k].size >= n + MIN_PAYLOAD + HEADER && rest == Without(h.free, k)
    requires cut == Block(h.free[k].addr + n + HEADER, h.free[k].size - (n + HEADER))
    requires h'.start == h.start && h'.max == h.max && h'.cur == h.cur
    requires h'.used == h.used + [Block(h.free[k].addr, n)] && h'.free == InsertBySize(rest, cut)
    ensures h' == Take(h, k, n)
  {
  }

  lemma GrowSplitIs(h: Heap, n: nat, gap: nat, us: seq<Block>, fs: seq<Block>) returns (h': Heap)
    requires gap >= 2 * HEADER && us == h.used && fs == InsertBySize(h.free, Block(h.End(), gap - 2 * HEADER))
    ensures h' == GrowSplit(h, n, gap)
    ensures h' == Heap(h.start, h.max, h.cur + gap + n, us + [Block(h.End() + gap - HEADER, n)], fs)
  {
    h' := GrowSplit(h, n, gap);
  }

  class List {
    var memstart: nat
    var maxsize: nat
    var cursize: nat
    var startUsed: nat
    var startFree: nat
    var mem: Memory
    ghost var used: seq<nat>
    ghost var free: seq<nat>

    ghost predicate WellLinked()
      reads this
    {
      && Linked(mem, startUsed, used)
      && Linked(mem, startFree, free)
      && NoDup(used + free)
      && (forall a | a in used :: a in mem)
      && (forall a | a in free :: a in mem)
      && 0 in mem  // page 0 is mapped, see AddToUsed
    }

    ghost function Abs(): Heap
      reads this
      requires WellLinked()
    {
      Heap(memstart, maxsize, cursize, BlocksOf(mem, used), BlocksOf(mem, free))
    }

    ghost predicate Valid()
      reads this
    {
      && WellLinked()
      && HEADER <= memstart  // the words of the null pointer lie below the arena
      && memstart + maxsize + 2 * PAGE < WORD
      && cursize <= maxsize + PAGE
      && Inv(Abs())
    }

    /** create_linkedlist */
    constructor (start: nat, max: nat)
      requires HEADER <= start && start + max + 2 * PAGE < WORD
      ensures Valid() && Abs() == Empty(start, max)
    {
      memstart, maxsize, cursize := start, max, 0;
      startUsed, startFree := 0, 0;
      mem := map[0 := Node(0, 0, 0)];
      used, free := [], [];
      EmptyInv(start, max);
    }

    /** add_to_used: walk to the last node and link `node` after it.  The null pointer of
        a failed growth is linked like any other node: that rewrites the words at address
        0 and leaves the list as it was. */
    method AddToUsed(node: nat)
      requires Linked(mem, startUsed, used) && node !in used && node in mem
      modifies this`startUsed, this`mem, this`used
      ensures Linked(mem, startUsed, used)
      ensures used == if node == 0 then old(used) else old(used) + [node]
      ensures Rewired(old(mem), mem, old(used) + [node])
    {
      var tmp := startUsed;
      if tmp == 0 {
        HeadNull(mem, startUsed, used);
        LinkOnly(mem, node);
        startUsed := node;
        mem := SetPrev(SetNext(mem, node, 0), node, 0);
      } else {
        ghost var k := 0;
        SegmentAt(mem, used, 0);
        while mem[tmp].next != 0
          invariant mem == old(mem) && used == old(used) && startUsed == old(startUsed)
          invariant k < |used| && tmp == used[k] && tmp in mem
          invariant mem[tmp].next != 0 <==> k + 1 < |used|
          decreases |used| - k
        {
          SegmentAt(mem, used, k);
          tmp := mem[tmp].next;
          k := k + 1;
          SegmentAt(mem, used, k);
        }
        if node == 0 {
          LinkNull(mem, used);
        } else {
          ghost var m' := LinkLast(mem, used, node);
        }
        var m := SetNext(mem, tmp, node);
        m := SetPrev(m, node, tmp);
        m := SetNext(m, node, 0);
        mem := m;
      }
      if node != 0 { used := used + [node]; }
    }

    /** The walk of add_to_free: the first node larger than `size`, or the last node. */
    method FindLarger(size: nat) returns (tmp: nat, ghost k: nat)
      requires Linked(mem, startFree, free) && free != []
      requires forall a | a in free :: a in mem
      ensures k < |free| && tmp == free[k] && tmp in mem
      ensures InsertPos(BlocksOf(mem, free), size) == if mem[tmp].size > size then k else |free|
      ensures mem[tmp].size > size || k == |free| - 1
    {
      ghost var blocks := BlocksOf(mem, free);
      BlocksAt(mem, free);
      tmp, k := startFree, 0;
      SegmentAt(mem, free, 0);
      while mem[tmp].size <= size && mem[tmp].next != 0
        invariant k < |free| && tmp == free[k] && tmp in mem
        invariant mem[tmp].next != 0 <==> k + 1 < |free|
        invariant forall i | 0 <= i < k :: blocks[i].size <= size
        decreases |free| - k
      {
        SegmentAt(mem, free, k);
        tmp := mem[tmp].next;
        k := k + 1;
        SegmentAt(mem, free, k);
      }
      InsertPosUnique(blocks, size, if mem[tmp].size > size then k else |free|);
    }

    /** add_to_free: link `node` before the first larger node, or after the last node if
        there is none. */
    method AddToFree(node: nat) returns (ghost p: nat)
      requires Linked(mem, startFree, free) && node !in free && node in mem && node != 0
      requires forall a | a in free :: a in mem
      modifies this`startFree, this`mem, this`free
      ensures Linked(mem, startFree, free)
      ensures p == InsertPos(BlocksOf(old(mem), old(free)), old(mem)[node].size)
      ensures free == old(free)[..p] + [node] + old(free)[p..]
      ensures Rewired(old(mem), mem, old(free) + [node])
    {
      HeadNull(mem, startFree, free);
      if startFree == 0 {
        LinkOnly(mem, node);
        startFree := node;
        mem := SetPrev(SetNext(mem, node, 0), node, 0);
        free := [node];
        return 0;
      }
      ghost var k;
      var tmp;
      tmp, k := FindLarger(mem[node].size);
      p := if mem[tmp].size > mem[node].size then k else |free|;
      if mem[tmp].size > mem[node].size {
        InsertBefore(tmp, node, k);
      } else {
        InsertLast(tmp, node);
      }
    }

    method InsertBefore(tmp: nat, node: nat, ghost k: nat)
      requires Linked(mem, startFree, free) && node !in free && node in mem && node != 0
      requires k < |free| && free[k] == tmp
      modifies this`startFree, this`mem, this`free
      ensures Linked(mem, startFree, free) && free == old(free)[..k] + [node] + old(free)[k..]
      ensures Rewired(old(mem), mem, old(free) + [node])
    {
      ghost var a, b := free[..k], free[k..];
      assert free == a + b;
      ghost var m' := LinkBetween(mem, a, b, node);
      var m, prev := mem, mem[tmp].prev;
      if prev != 0 {
        m := SetNext(m, prev, node);
      } else {
        startFree := node;
      }
      m := SetPrev(m, node, prev);
      m := SetPrev(m, tmp, node);
      m := SetNext(m, node, tmp);
      assert m == m';
      mem, free := m, a + [node] + b;
    }

    method InsertLast(tmp: nat, node: nat)
      requires Linked(mem, startFree, free) && node !in free && node in mem && node != 0
      requires free != [] && tmp == LastOr(free, 0)
      modifies this`startFree, this`mem, this`free
      ensures Linked(mem, startFree, free) && free == old(free) + [node]
      ensures Rewired(old(mem), mem, old(free) + [node])
    {
      ghost var m' := LinkLast(mem, free, node);
      var m := SetNext(mem, tmp, node);
      m := SetPrev(m, node, tmp);
      m := SetNext(m, node, 0);
      mem, free := m, free + [node];
    }

    /** The release of a node from the free list at the start of mark_used. */
    method ReleaseFree(node: nat, ghost k: nat)
      requires Linked(mem, startFree, free) && k < |free| && free[k] == node
      modifies this`startFree, this`mem, this`free
      ensures Linked(mem, startFree, free) && free == old(free)[..k] + old(free)[k + 1..]
      ensures Rewired(old(mem), mem, old(free))
    {
      ghost var a, b := free[..k], free[k + 1..];
      assert free == a + [node] + b;
      ghost var m' := UnlinkBetween(mem, a, node, b);
      var m, prev, next := mem, mem[node].prev, mem[node].next;
      if prev != 0 {
        m := SetNext(m, prev, next);
      } else {
        startFree := next;
      }
      if next != 0 {
        m := SetPrev(m, next, prev);
      }
      assert m == m';
      mem, free := m, a + b;
    }

    /** The release of a node from the used list at the start of mark_free. */
    method ReleaseUsed(node: nat, ghost k: nat)
      requires Linked(mem, startUsed, used) && k < |used| && used[k] == node
      modifies this`startUsed, this`mem, this`used
      ensures Linked(mem, startUsed, used) && used == old(used)[..k] + old(used)[k + 1..]
      ensures Rewired(old(mem), mem, old(used))
    {
      ghost var a, b := used[..k], used[k + 1..];
      assert used == a + [node] + b;
      ghost var m' := UnlinkBetween(mem, a, node, b);
      var m, prev, next := mem, mem[node].prev, mem[node].next;
      if prev != 0 {
        m := SetNext(m, prev, next);
      } else {
        startUsed := next;
      }
      if next != 0 {
        m := SetPrev(m, next, prev);
      }
      assert m == m';
      mem, used := m, a + b;
    }

    /** mark_used: from the free list to the end of the used list. */
    method MarkUsed(node: nat, ghost k: nat)
      requires WellLinked() && k < |free| && free[k] == node
      modifies this`startUsed, this`startFree, this`mem, this`used, this`free
      ensures WellLinked()
      ensures used == old(used) + [node] && free == old(free)[..k] + old(free)[k + 1..]
      ensures Rewired(old(mem), mem, old(used + free))
    {
      ghost var a, b := free[..k], free[k + 1..];
      assert free == a + [node] + b;
      SplitLists(used, a, node, b);
      SegmentMembers(mem, free, 0, 0, node);
      ReleaseFree(node, k);
      LinkedFrame(old(mem), mem, startUsed, used, old(free));
      ghost var m1 := mem;
      AddToUsed(node);
      LinkedFrame(m1, mem, startFree, free, old(used) + [node]);
      assert used + free == old(used) + [node] + (a + b);
    }

    /** mark_free: from the used list to its place by size in the free list. */
    method MarkFree(node: nat, ghost k: nat) returns (ghost p: nat)
      requires WellLinked() && k < |used| && used[k] == node
      modifies this`startUsed, this`startFree, this`mem, this`used, this`free
      ensures WellLinked()
      ensures used == old(used)[..k] + old(used)[k + 1..]
      ensures p == InsertPos(BlocksOf(old(mem), old(free)), old(mem)[node].size)
      ensures free == old(free)[..p] + [node] + old(free)[p..]
      ensures Rewired(old(mem), mem, old(used + free))
    {
      ghost var a, b := used[..k], used[k + 1..];
      assert used == a + [node] + b;
      SplitLists'(a, node, b, free);
      SegmentMembers(mem, used, 0, 0, node);
      ReleaseUsed(node, k);
      LinkedFrame(old(mem), mem, startFree, free, old(used));
      ghost var m1 := mem;
      BlocksSame(old(mem), m1, free);
      p := AddToFree(node);
      LinkedFrame(m1, mem, startUsed, used, old(free) + [node]);
      InsertLists(a + b, old(free), p, node);
      assert WellLinked() by {
        forall x | x in used ensures x in mem {
          assert x in old(used);
        }
        forall x | x in free ensures x in mem {
          assert x in used + free;
          assert x in a + b || x in old(free) || x == node;
        }
      }
    }

    /** The walk of free_node. */
    method FindUsed(node: nat) returns (found: bool, ghost k: nat)
      requires WellLinked()
      ensures k <= |used| && (found <==> k < |used|) && (found ==> used[k] == node)
      ensures forall i | 0 <= i < k :: used[i] != node
    {
      HeadNull(mem, startUsed, used);
      var tmp := startUsed;
      k := 0;
      while tmp != 0
        invariant k <= |used| && tmp == FirstOr(used[k..], 0)
        invariant tmp != 0 <==> k < |used|
        invariant forall i | 0 <= i < k :: used[i] != node
        decreases |used| - k
      {
        if tmp == node { return true, k; }
        SegmentAt(mem, used, k);
        tmp := mem[tmp].next;
        k := k + 1;
      }
      return false, k;
    }

    /** mark_used, with its effect on the blocks. */
    method UseNode(node: nat, ghost k: nat)
      requires WellLinked() && k < |free| && free[k] == node
      modifies this`startUsed, this`startFree, this`mem, this`used, this`free
      ensures WellLinked() && used == old(used) + [node] && free == old(free)[..k] + old(free)[k + 1..]
      ensures mem.Keys == old(mem.Keys) && forall a | a in mem :: mem[a].size == old(mem)[a].size
      ensures BlocksOf(mem, used) == BlocksOf(old(mem), old(used)) + [Block(node, old(mem)[node].size)]
      ensures BlocksOf(mem, free) == Without(BlocksOf(old(mem), old(free)), k)
    {
      MarkUsed(node, k);
      BlocksAppend(old(mem), mem, old(used), node);
      BlocksRemove(old(mem), mem, old(free), k);
    }

    /** add_to_free on a node that is on neither list. */
    method PutFree(node: nat)
      requires WellLinked() && node !in used && node !in free && node in mem && node != 0
      modifies this`startFree, this`mem, this`free
      ensures WellLinked()
      ensures mem.Keys == old(mem.Keys) && forall a | a in mem :: mem[a].size == old(mem)[a].size
      ensures BlocksOf(mem, used) == BlocksOf(old(mem), used)
      ensures BlocksOf(mem, free) == InsertBySize(BlocksOf(old(mem), old(free)), Block(node, old(mem)[node].size))
      ensures forall a | a in free :: a in old(free) || a == node
    {
      ghost var m, s := mem, free;
      NoDupConcat(used, s);
      ghost var p := AddToFree(node);
      LinkedFrame(m, mem, startUsed, used, s + [node]);
      BlocksSame(m, mem, used);
      BlocksInsert(m, mem, s, p, node);
      InsertLists(used, s, p, node);
    }

    /** The headers of a split: a new size for `node`, and a node behind it that is on no
        list yet. */
    method CutNode(n: nat, node: nat, newnode: nat, ghost k: nat)
      requires WellLinked() && k < |free| && free[k] == node
      requires mem[node].size >= n + HEADER && newnode == node + n + HEADER && newnode !in used && newnode !in free
      modifies this`mem
      ensures WellLinked()
      ensures newnode in mem && mem[newnode].size == old(mem)[node].size - (n + HEADER)
      ensures mem[node].size == n
      ensures BlocksOf(mem, used) == BlocksOf(old(mem), used)
      ensures Without(BlocksOf(mem, free), k) == Without(BlocksOf(old(mem), free), k)
    {
      ghost var m := mem;
      ghost var a, b := free[..k], free[k + 1..];
      assert free == a + [node] + b;
      SplitLists(used, a, node, b);
      mem := SetSize(mem[newnode := Node(mem[node].size - (n + HEADER), 0, 0)], node, n);
      assert Cut(m, mem, node, newnode);
      CutLinks(m, mem, node, newnode, used);
      CutLinks(m, mem, node, newnode, free);
      CutBlocks(m, mem, node, newnode, used);
      CutBlocks(m, mem, node, newnode, a + b);
      BlocksRemove(m, m, free, k);
      BlocksRemove(mem, mem, free, k);
    }

    method CutAndUse(n: nat, node: nat, newnode: nat, ghost k: nat)
      requires WellLinked() && k < |free| && free[k] == node
      requires mem[node].size >= n + HEADER && newnode == node + n + HEADER && newnode !in used && newnode !in free
      modifies this`startUsed, this`startFree, this`mem, this`used, this`free
      ensures WellLinked() && used == old(used) + [node] && newnode !in used && newnode !in free
      ensures newnode in mem && Block(newnode, mem[newnode].size) == Block(newnode, old(mem)[node].size - (n + HEADER))
      ensures BlocksOf(mem, used) == BlocksOf(old(mem), old(used)) + [Block(node, n)]
      ensures BlocksOf(mem, free) == Without(BlocksOf(old(mem), old(free)), k)
    {
      CutNode(n, node, newnode, k);
      UseNode(node, k);
    }

    /** split_fit: the node keeps its address, and what is cut off it becomes a node on
        the free list. */
    method SplitFit(n: nat, node: nat, ghost k: nat)
      requires WellLinked() && k < |free| && free[k] == node && mem[node].size >= n
      requires BlocksOf(mem, free)[k] == Block(node, mem[node].size)
      requires CutFits(mem, used, free, n, node)
      modifies this`startUsed, this`startFree, this`mem, this`used, this`free
      ensures WellLinked() && used == old(used) + [node]
      ensures Abs() == Take(old(Abs()), k, n)
    {
      ghost var h := Abs();
      if mem[node].size - n < MIN_PAYLOAD + HEADER {
        UseNode(node, k);
        TakeAll(h, k, n, Abs());
      } else {
        var newnode := node + n + HEADER;
        ghost var cut := Block(newnode, mem[node].size - (n + HEADER));
        CutAndUse(n, node, newnode, k);
        ghost var rest := Without(h.free, k);
        PutFree(newnode);
        TakeCut(h, k, n, Abs(), rest, cut);
      }
    }

    /** The header of a block that is on no list yet. */
    method NewHeader(node: nat, size: nat)
      requires WellLinked() && node !in used && node !in free && node != 0
      modifies this`mem
      ensures WellLinked() && mem == old(mem)[node := Node(size, 0, 0)]
      ensures BlocksOf(mem, used) == BlocksOf(old(mem), used)
      ensures BlocksOf(mem, free) == BlocksOf(old(mem), free)
    {
      ghost var m := mem;
      mem := mem[node := Node(size, 0, 0)];
      SegmentFrame(m, mem, used, 0, 0);
      SegmentFrame(m, mem, free, 0, 0);
      BlocksFrame(m, mem, used);
      BlocksFrame(m, mem, free);
    }

    /** The left block of a page-aligned growth. */
    method LeftBlock(node: nat, size: nat)
      requires WellLinked() && node !in used && node !in free && node != 0
      modifies this`startFree, this`mem, this`free
      ensures WellLinked()
      ensures BlocksOf(mem, used) == BlocksOf(old(mem), used)
      ensures BlocksOf(mem, free) == InsertBySize(BlocksOf(old(mem), old(free)), Block(node, size))
      ensures forall a | a in free :: a in old(free) || a == node
    {
      NewHeader(node, size);
      PutFree(node);
    }

    /** The state after expand_heap has made a block that is on no list yet, where `h` is
        the heap once the block is added to the used list. */
    ghost predicate Pending(newnode: nat, n: nat, h: Heap)
      reads this
    {
      && WellLinked() && newnode != 0 && newnode !in used && newnode !in free
      && newnode in mem && mem[newnode].size == n
      && h.start == memstart && h.max == maxsize && h.cur == cursize
      && h.used == BlocksOf(mem, used) + [Block(newnode, n)] && h.free == BlocksOf(mem, free)
    }

    /** Writing the header of the new block. */
    method PendingHeader(newnode: nat, n: nat, ghost h: Heap)
      requires WellLinked() && newnode !in used && newnode !in free && newnode != 0
      requires h == Heap(memstart, maxsize, cursize, BlocksOf(mem, used) + [Block(newnode, n)], BlocksOf(mem, free))
      modifies this`mem
      ensures Pending(newnode, n, h)
    {
      NewHeader(newnode, n);
    }

    /** The left block of expand_heap_align_split, and the room for the new block behind it. */
    method ExpandLeft(n: nat, gap: nat) returns (newnode: nat)
      requires WellLinked() && gap > 2 * HEADER && 0 < memstart
      requires forall a | a in used :: a < memstart + cursize
      requires forall a | a in free :: a < memstart + cursize
      modifies this`startFree, this`mem, this`free, this`cursize
      ensures WellLinked() && newnode != 0 && newnode !in used && newnode !in free
      ensures cursize == old(cursize) + gap + n && newnode == memstart + old(cursize) + gap - HEADER
      ensures BlocksOf(mem, used) == BlocksOf(old(mem), used)
      ensures BlocksOf(mem, free) ==
              InsertBySize(BlocksOf(old(mem), old(free)), Block(memstart + old(cursize), gap - 2 * HEADER))
    {
      var heapend := memstart + cursize;
      newnode := heapend + gap - HEADER;
      LeftBlock(heapend, gap - 2 * HEADER);
      cursize := cursize + gap + n;
    }

    /** expand_heap_align_split */
    method ExpandSplit(n: nat, gap: nat) returns (newnode: nat)
      requires WellLinked() && gap > 2 * HEADER && 0 < memstart
      requires forall a | a in used :: a < memstart + cursize
      requires forall a | a in free :: a < memstart + cursize
      modifies this`startFree, this`mem, this`free, this`cursize
      ensures Pending(newnode, n, GrowSplit(old(Abs()), n, gap))
      ensures used == old(used)
    {
      ghost var h := Abs();
      newnode := ExpandLeft(n, gap);
      ghost var h' := GrowSplitIs(h, n, gap, BlocksOf(mem, used), BlocksOf(mem, free));
      PendingHeader(newnode, n, h');
    }

    /** add_to_used on a node that is on neither list, or on null. */
    method PutUsed(node: nat)
      requires WellLinked() && node !in used && node !in free && node in mem
      modifies this`startUsed, this`mem, this`used
      ensures WellLinked()
      ensures used == if node == 0 then old(used) else old(used) + [node]
      ensures BlocksOf(mem, used) ==
              if node == 0 then BlocksOf(old(mem), old(used))
              else BlocksOf(old(mem), old(used)) + [Block(node, old(mem)[node].size)]
      ensures BlocksOf(mem, free) == BlocksOf(old(mem), free)
    {
      ghost var m, s := mem, used;
      NoDupConcat(s, free);
      AddToUsed(node);
      LinkedFrame(m, mem, startFree, free, s + [node]);
      BlocksSame(m, mem, free);
      BlocksSame(m, mem, s);
      if node != 0 {
        BlocksAppend(m, mem, s, node);
        NoDupMiddle(s, node, free);
      }
    }

    /** The walk of get_free: the first node that fits, or null. */
    method FindFit(n: nat, aligned: bool) returns (tmp: nat, ghost k: nat)
      requires WellLinked()
      ensures k == FirstFit(BlocksOf(mem, free), n, aligned)
      ensures tmp != 0 <==> k < |free|
      ensures tmp != 0 ==> free[k] == tmp
    {
      HeadNull(mem, startFree, free);
      ghost var blocks := BlocksOf(mem, free);
      BlocksAt(mem, free);
      tmp, k := startFree, 0;
      while tmp != 0
        invariant k <= |free| && tmp == FirstOr(free[k..], 0)
        invariant tmp != 0 <==> k < |free|
        invariant forall i | 0 <= i < k :: !Fits(blocks[i], n, aligned)
        decreases |free| - k
      {
        SegmentAt(mem, free, k);
        assert blocks[k] == Block(tmp, mem[tmp].size);
        if mem[tmp].size >= n {
          if !aligned || (tmp + HEADER) % 0x1000 == 0 {
            FirstFitUnique(blocks, n, aligned, k);
            return;
          }
        }
        tmp := mem[tmp].next;
        k := k + 1;
      }
      FirstFitUnique(blocks, n, aligned, k);
    }

    /** next_page_address, in 32-bit arithmetic */
    static function NextPage32(a: nat): nat { U32(a - a % 0x1000 + 0x1000) }

    /** The growth by one block, at the end of the heap. */
    method ExpandOne(n: nat) returns (newnode: nat)
      requires WellLinked() && 0 < memstart && memstart + cursize !in used && memstart + cursize !in free
      modifies this`mem, this`cursize
      ensures Pending(newnode, n, GrowOne(old(Abs()), n))
      ensures used == old(used)
    {
      newnode := memstart + cursize;
      ghost var h' := GrowOne(Abs(), n);
      cursize := cursize + n + HEADER;
      PendingHeader(newnode, n, h');
    }

    /** The three ways to reach the next page. */
    method ExpandAcross(n: nat, gap: nat) returns (newnode: nat)
      requires WellLinked() && 0 < memstart
      requires forall a | a in used :: a < memstart + cursize
      requires forall a | a in free :: a < memstart + cursize
      modifies this`startFree, this`mem, this`free, this`cursize
      ensures Pending(newnode, n, GrowAcross(old(Abs()), n, gap))
      ensures used == old(used)
    {
      if gap >= 2 * HEADER + MIN_PAYLOAD {
        newnode := ExpandSplit(n, gap);
      } else if gap == HEADER {
        newnode := ExpandOne(n);
      } else {
        newnode := ExpandSplit(n, gap + 0x1000);
      }
    }

    /** expand_heap: null is returned, and nothing changed, when the heap is full. */
    method ExpandHeap(n: nat, aligned: bool) returns (newnode: nat)
      requires WellLinked() && 0 < memstart && memstart + cursize + PAGE < WORD && cursize + n + 2 * PAGE < WORD
      requires forall a | a in used :: a < memstart + cursize
      requires forall a | a in free :: a < memstart + cursize
      modifies this`startFree, this`mem, this`free, this`cursize
      ensures newnode == 0 ==> WellLinked() && Grow(old(Abs()), n, aligned) == None && Abs() == old(Abs())
      ensures newnode != 0 ==> var h' := Grow(old(Abs()), n, aligned); h'.Some? && Pending(newnode, n, h'.value)
      ensures used == old(used)
    {
      ghost var h := Abs();
      var heapend := memstart + cursize;
      assert NextPage32(heapend) == NextPage(h.End());
      if aligned {
        var gap := NextPage32(heapend) - heapend;
        if U32(gap + n + cursize) <= maxsize {
          assert Grow(h, n, aligned) == Some(GrowAcross(h, n, gap));
          newnode := ExpandAcross(n, gap);
          return;
        }
      } else {
        if U32(cursize + n + HEADER) <= maxsize {
          assert Grow(h, n, aligned) == Some(GrowOne(h, n));
          newnode := ExpandOne(n);
          return;
        }
      }
      newnode := 0;
    }

    /** The block found by the walk of get_free is handed out. */
    method TakeFit(n: nat, node: nat, ghost k: nat)
      requires WellLinked() && k < |free| && free[k] == node && mem[node].size >= n
      requires BlocksOf(mem, free)[k] == Block(node, mem[node].size)
      requires CutFits(mem, used, free, n, node)
      modifies this`startUsed, this`startFree, this`mem, this`used, this`free
      ensures WellLinked() && used == old(used) + [node]
      ensures Abs() == Take(old(Abs()), k, n)
    {
      if mem[node].size != n {
        SplitFit(n, node, k);
      } else {
        ghost var h := Abs();
        UseNode(node, k);
        TakeAll(h, k, n, Abs());
      }
    }

    /** The growth at the end of get_free; a null block is linked as well. */
    method ExpandAndUse(n: nat, aligned: bool) returns (newnode: nat)
      requires WellLinked() && 0 < memstart && memstart + cursize + PAGE < WORD && cursize + n + 2 * PAGE < WORD
      requires forall a | a in used :: a < memstart + cursize
      requires forall a | a in free :: a < memstart + cursize
      modifies this`startUsed, this`startFree, this`mem, this`used, this`free, this`cursize
      ensures WellLinked()
      ensures newnode == 0 ==> Grow(old(Abs()), n, aligned) == None && Abs() == old(Abs())
      ensures newnode != 0 ==> Grow(old(Abs()), n, aligned) == Some(Abs()) && used == old(used) + [newnode]
    {
      newnode := ExpandHeap(n, aligned);
      if newnode == 0 {
        SegmentNoNull(mem, used);
        SegmentNoNull(mem, free);
      }
      PutUsed(newnode);
    }

    /** get_free on a rounded request; the arguments about the layout of the arena that it
        needs are preconditions here, and follow from the invariant in GetFree. */
    method FindOrExpand(n: nat, aligned: bool) returns (node: nat)
      requires WellLinked() && 0 < memstart && memstart + cursize + PAGE < WORD && cursize + n + 2 * PAGE < WORD
      requires forall a | a in used :: a < memstart + cursize
      requires forall a | a in free :: a < memstart + cursize
      requires forall a | a in free :: CutFits(mem, used, free, n, a)
      modifies this`startUsed, this`startFree, this`mem, this`used, this`free, this`cursize
      ensures WellLinked()
      ensures var k := FirstFit(old(Abs()).free, n, aligned);
              var r := if k < |old(Abs()).free| then Some(Take(old(Abs()), k, n)) else Grow(old(Abs()), n, aligned);
              if node == 0 then r == None && Abs() == old(Abs()) else r == Some(Abs()) && used == old(used) + [node]
    {
      ghost var k;
      node, k := FindFit(n, aligned);
      if node != 0 {
        BlocksAt(mem, free);
        assert node in free;
        TakeFit(n, node, k);
      } else {
        node := ExpandAndUse(n, aligned);
      }
    }

    /** get_free: the address of the header of the new block, or null. */
    method GetFree(request: nat, aligned: bool) returns (node: nat)
      requires Valid() && cursize + Rounded(request) + 2 * PAGE < WORD
      modifies this`startUsed, this`startFree, this`mem, this`used, this`free, this`cursize
      ensures Valid()
      ensures node == 0 ==> Arena.GetFree(old(Abs()), request, aligned) == None && Abs() == old(Abs())
      ensures node != 0 ==> Arena.GetFree(old(Abs()), request, aligned) == Some(Abs()) && used == old(used) + [node]
    {
      ghost var h := Abs();
      var n := if request < MIN_PAYLOAD then MIN_PAYLOAD else request;
      HeadersBelowEnd(mem, used, free, h);
      CutsAreFresh(mem, used, free, h, n);
      node := FindOrExpand(n, aligned);
      if node != 0 {
        GetFreeInv(h, request, aligned);
        GetFreeBounded(h, request, aligned);
      }
    }

    /** mark_free, with its effect on the blocks. */
    method FreeListed(node: nat, ghost k: nat)
      requires WellLinked() && k < |used| && used[k] == node
      modifies this`startUsed, this`startFree, this`mem, this`used, this`free
      ensures WellLinked() && used == old(used)[..k] + old(used)[k + 1..]
      ensures BlocksOf(mem, used) == Without(BlocksOf(old(mem), old(used)), k)
      ensures BlocksOf(mem, free) == InsertBySize(BlocksOf(old(mem), old(free)), BlocksOf(old(mem), old(used))[k])
    {
      BlocksAt(mem, used);
      ghost var p := MarkFree(node, k);
      BlocksRemove(old(mem), mem, old(used), k);
      BlocksInsert(old(mem), mem, old(free), p, node);
    }

    method FindAndFree(node: nat) returns (r: int)
      requires WellLinked()
      modifies this`startUsed, this`startFree, this`mem, this`used, this`free
      ensures WellLinked() && (r == 0 || r == -1)
      ensures if r == 0 then Arena.FreeNode(old(Abs()), node) == Some(Abs())
              else Arena.FreeNode(old(Abs()), node) == None && Abs() == old(Abs())
    {
      ghost var h := Abs();
      ghost var k;
      var found;
      BlocksAt(mem, used);
      found, k := FindUsed(node);
      FindUsedUnique(h.used, node, k);
      if !found { return -1; }
      FreeListed(node, k);
      return 0;
    }

    /** free_node: the node is looked up in the used list before it is freed. */
    method FreeNode(node: nat) returns (r: int)
      requires Valid()
      modifies this`startUsed, this`startFree, this`mem, this`used, this`free
      ensures Valid() && (r == 0 || r == -1)
      ensures if r == 0 then Arena.FreeNode(old(Abs()), node) == Some(Abs())
              else Arena.FreeNode(old(Abs()), node) == None && Abs() == old(Abs())
    {
      ghost var h := Abs();
      r := FindAndFree(node);
      if r == 0 { FreeNodeInv(h, node); }
    }

    /** alloc of kernel/mm/heap.c: the address of the payload, or null.  The payload is at
        least as large as asked for, page-aligned when asked for, and overlaps no live
        block; and no live block is moved or resized. */
    method Alloc(request: nat, aligned: bool) returns (p: nat)
      requires Valid() && cursize + Rounded(request) + 2 * PAGE < WORD
      modifies this`startUsed, this`startFree, this`mem, this`used, this`free, this`cursize
      ensures Valid()
      ensures p == 0 <==> Exhausted(old(Abs()), request, aligned)
      ensures p == 0 ==> Abs() == old(Abs())
      ensures p != 0 ==> |Abs().used| == |old(Abs()).used| + 1 &&
                         var b := Abs().used[|old(Abs()).used|];
                         && Abs().used == old(Abs()).used + [b]
                         && p == b.Payload() && b.size >= request && b.size >= MIN_PAYLOAD
                         && (aligned ==> p % 0x1000 == 0)
                         && forall u | u in old(Abs()).used :: Apart(u, b)
    {
      ghost var h := Abs();
      var node := GetFree(request, aligned);
      GetFreeFailsIff(h, request, aligned);
      if node == 0 { return 0; }
      GetFreeGives(h, request, aligned);
      BlocksAt(mem, used);
      forall u | u in h.used ensures Apart(u, Abs().used[|h.used|]) { GetFreeApart(h, request, aligned, u); }
      return node + HEADER;
    }

    /** free of kernel/mm/heap.c: it takes the address of a payload, and succeeds exactly
        on the payloads of live blocks. */
    method Free(p: nat) returns (r: int)
      requires Valid() && p < WORD
      modifies this`startUsed, this`startFree, this`mem, this`used, this`free
      ensures Valid()
      ensures r == 0 <==> exists b :: b in old(Abs()).used && b.Payload() == p
      ensures r == 0 ==> p >= HEADER && Arena.FreeNode(old(Abs()), p - HEADER) == Some(Abs())
      ensures r != 0 ==> r == -1 && Abs() == old(Abs())
    {
      ghost var h := Abs();
      var node := U32(p + WORD - HEADER);
      FreePayload(h, p, node);
      r := FreeNode(node);
    }
  }
}
