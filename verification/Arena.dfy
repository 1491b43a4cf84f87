/** The kernel heap as an arena of blocks: what the allocator of kernel/mm/linkedlist.c
    promises, stated on sequences.  `LinkedList` refines this module with pointers.

    A block is a 12-byte header followed by its payload.  `used` is kept in order of
    allocation, `free` in ascending order of payload size.  Blocks are never merged. */
module Arena {
  import opened Basics

  const HEADER: nat := 12       // sizeof(struct ll_node): three 32-bit words
  const MIN_PAYLOAD: nat := 32  // NODESIZE_MAX
  const PAGE: nat := 0x1000

  datatype Block = Block(addr: nat, size: nat) {
    function End(): nat { addr + HEADER + size }
    function Payload(): nat { addr + HEADER }
  }

  datatype Heap = Heap(start: nat, max: nat, cur: nat, used: seq<Block>, free: seq<Block>) {
    function End(): nat { start + cur }
    function Blocks(): seq<Block> { used + free }
  }

  function Empty(start: nat, max: nat): Heap { Heap(start, max, 0, [], []) }

  // ---------------------------------------------------------------- operations

  /** The position of the first block larger than `size`, or |free|. */
  function InsertPos(free: seq<Block>, size: nat): (k: nat)
    ensures k <= |free|
    ensures k < |free| ==> free[k].size > size
    ensures forall i | 0 <= i < k :: free[i].size <= size
  {
    if free == [] || free[0].size > size then 0 else 1 + InsertPos(free[1..], size)
  }

  /** add_to_free: before the first larger block, after all blocks of the same size. */
  function InsertBySize(free: seq<Block>, b: Block): seq<Block> {
    var k := InsertPos(free, b.size);
    free[..k] + [b] + free[k..]
  }

  function Without(s: seq<Block>, i: nat): seq<Block>
    requires i < |s|
  {
    s[..i] + s[i + 1..]
  }

  function Rounded(request: nat): nat { if request < MIN_PAYLOAD then MIN_PAYLOAD else request }

  predicate Fits(b: Block, n: nat, aligned: bool) {
    b.size >= n && (aligned ==> b.Payload() % 0x1000 == 0)
  }

  /** The position of the first block that fits, or |free|. */
  function FirstFit(free: seq<Block>, n: nat, aligned: bool): (i: nat)
    ensures i <= |free|
    ensures i < |free| ==> Fits(free[i], n, aligned)
    ensures forall k | 0 <= k < i :: !Fits(free[k], n, aligned)
  {
    if free == [] || Fits(free[0], n, aligned) then 0
    else 1 + FirstFit(free[1..], n, aligned)
  }

  lemma FirstFitUnique(free: seq<Block>, n: nat, aligned: bool, k: nat)
    requires k <= |free|
    requires forall i | 0 <= i < k :: !Fits(free[i], n, aligned)
    requires k < |free| ==> Fits(free[k], n, aligned)
    ensures FirstFit(free, n, aligned) == k
  {
  }

  /** split_fit and perfect_fit: hand out free block `i`, cutting off the rest of it
      when the rest can hold a header and a minimal payload. */
  function Take(h: Heap, i: nat, n: nat): Heap
    requires i < |h.free| && h.free[i].size >= n
  {
    var b := h.free[i];
    var rest := Without(h.free, i);
    if b.size - n < MIN_PAYLOAD + HEADER then
      h.(used := h.used + [b], free := rest)
    else
      var cut := Block(b.addr + n + HEADER, b.size - (n + HEADER));
      h.(used := h.used + [Block(b.addr, n)], free := InsertBySize(rest, cut))
  }

  function NextPage(a: nat): (p: nat)
    ensures a < p <= a + PAGE && p % 0x1000 == 0
  {
    a - a % 0x1000 + 0x1000
  }

  /** expand_heap_align_split: a left block of `gap` bytes, header included, less the
      header of the new block, whose payload starts `gap` bytes after the old end. */
  function GrowSplit(h: Heap, n: nat, gap: nat): Heap
    requires gap >= 2 * HEADER
  {
    h.(cur := h.cur + gap + n,
    used := h.used + [Block(h.End() + gap - HEADER, n)],
    free := InsertBySize(h.free, Block(h.End(), gap - 2 * HEADER)))
  }

  function GrowOne(h: Heap, n: nat): Heap {
    h.(cur := h.cur + HEADER + n, used := h.used + [Block(h.End(), n)])
  }

  /** How the bytes up to the next page are used: as a left block, as the new block's own
      header, or, when they are too few for either, as a left block together with one more
      page. */
  function GrowAcross(h: Heap, n: nat, gap: nat): Heap {
    if gap >= 2 * HEADER + MIN_PAYLOAD then GrowSplit(h, n, gap)
    else if gap == HEADER then GrowOne(h, n)
    else GrowSplit(h, n, gap + PAGE)
  }

  /** expand_heap: None when the size check fails. */
  function Grow(h: Heap, n: nat, aligned: bool): Option<Heap> {
    if aligned then
      var gap := NextPage(h.End()) - h.End();
      if gap + n + h.cur > h.max then None else Some(GrowAcross(h, n, gap))
    else
      if h.cur + n + HEADER > h.max then None else Some(GrowOne(h, n))
  }

  /** get_free: the new heap, and whether a block was handed out (it is then the last
      block of `used`). */
  function GetFree(h: Heap, request: nat, aligned: bool): Option<Heap> {
    var n := Rounded(request);
    var i := FirstFit(h.free, n, aligned);
    if i < |h.free| then Some(Take(h, i, n)) else Grow(h, n, aligned)
  }

  /** The position in `used` of the block with this address, or |used|. */
  function FindUsed(used: seq<Block>, addr: nat): (i: nat)
    ensures i <= |used|
    ensures i < |used| ==> used[i].addr == addr
    ensures forall k | 0 <= k < i :: used[k].addr != addr
  {
    if used == [] || used[0].addr == addr then 0 else 1 + FindUsed(used[1..], addr)
  }

  lemma FindUsedUnique(used: seq<Block>, addr: nat, k: nat)
    requires k <= |used|
    requires forall i | 0 <= i < k :: used[i].addr != addr
    requires k < |used| ==> used[k].addr == addr
    ensures FindUsed(used, addr) == k
  {
  }

  /** free_node: None is the -1 return. */
  function FreeNode(h: Heap, addr: nat): Option<Heap> {
    var i := FindUsed(h.used, addr);
    if i == |h.used| then None
    else Some(h.(used := Without(h.used, i), free := InsertBySize(h.free, h.used[i])))
  }

  // ---------------------------------------------------------------- invariant

  /** `order` lays blocks end to end from `lo` to `hi`. */
  predicate Chain(order: seq<Block>, lo: nat, hi: nat) {
    if order == [] then lo == hi
    else order[0].addr == lo && order[0].size >= MIN_PAYLOAD && Chain(order[1..], order[0].End(), hi)
  }

  predicate Sorted(free: seq<Block>) {
    forall i, j | 0 <= i < j < |free| :: free[i].size <= free[j].size
  }

  function One(b: Block, x: Block): nat { if b == x then 1 else 0 }

  /** How often `x` occurs in `s`. */
  function Count(s: seq<Block>, x: Block): nat {
    if s == [] then 0 else One(s[0], x) + Count(s[1..], x)
  }

  ghost predicate SameContents(order: seq<Block>, used: seq<Block>, free: seq<Block>) {
    forall x :: Count(order, x) == Count(used, x) + Count(free, x)
  }

  ghost predicate Tiling(h: Heap, order: seq<Block>) {
    Chain(order, h.start, h.End()) && SameContents(order, h.used, h.free)
  }

  /** Address `x` belongs to one of the blocks. */
  ghost predicate Covered(s: seq<Block>, x: nat) {
    exists b :: b in s && b.addr <= x < b.End()
  }

  predicate Apart(a: Block, b: Block) {
    a.End() <= b.addr || b.End() <= a.addr
  }

  ghost predicate Inv(h: Heap) {
    Sorted(h.free) && exists order :: Tiling(h, order)
  }

  // ---------------------------------------------------------------- sequences of blocks

  lemma InsertBySizeSorted(free: seq<Block>, b: Block)
    requires Sorted(free)
    ensures Sorted(InsertBySize(free, b))
  {
    var k := InsertPos(free, b.size);
    SortedInsert(free, b, k);
  }

  lemma SortedInsert(free: seq<Block>, b: Block, k: nat)
    requires Sorted(free) && k <= |free|
    requires k < |free| ==> free[k].size > b.size
    requires forall i | 0 <= i < k :: free[i].size <= b.size
    ensures Sorted(free[..k] + [b] + free[k..])
  {
    var r := free[..k] + [b] + free[k..];
    forall i, j | 0 <= i < j < |r| ensures r[i].size <= r[j].size {
      var j' := if j > k then j - 1 else j;
      var i' := if i > k then i - 1 else i;
      if i != k && j != k {
        assert r[i] == free[i'] && r[j] == free[j'];
      } else if j == k {
        assert r[i] == free[i];
      } else {
        assert r[j] == free[j'] && free[k].size <= free[j'].size;
      }
    }
  }

  lemma {:induction false} CountConcat(a: seq<Block>, b: seq<Block>, x: Block)
    ensures Count(a + b, x) == Count(a, x) + Count(b, x)
  {
    if a == [] {
      assert a + b == b;
    } else {
      CountConcat(a[1..], b, x);
      assert (a + b)[1..] == a[1..] + b;
    }
  }

  lemma {:induction false} CountMember(s: seq<Block>, x: Block)
    ensures x in s <==> Count(s, x) > 0
  {
    if s != [] {
      CountMember(s[1..], x);
      assert s == [s[0]] + s[1..];
    }
  }

  lemma CountAdd(s: seq<Block>, b: Block, x: Block)
    ensures Count(s + [b], x) == Count(s, x) + One(b, x)
  {
    CountConcat(s, [b], x);
  }

  lemma CountAround(s: seq<Block>, k: nat, b: Block, x: Block)
    requires k <= |s|
    ensures Count(s[..k] + [b] + s[k..], x) == Count(s, x) + One(b, x)
  {
    assert s == s[..k] + s[k..];
    CountConcat(s[..k], s[k..], x);
    CountAdd(s[..k], b, x);
    CountConcat(s[..k] + [b], s[k..], x);
  }

  lemma CountInsert(free: seq<Block>, b: Block, x: Block)
    ensures Count(InsertBySize(free, b), x) == Count(free, x) + One(b, x)
  {
    CountAround(free, InsertPos(free, b.size), b, x);
  }

  lemma CountWithout(s: seq<Block>, i: nat, x: Block)
    requires i < |s|
    ensures Count(s, x) == Count(Without(s, i), x) + One(s[i], x)
  {
    var r := Without(s, i);
    assert s == r[..i] + [s[i]] + r[i..];
    CountAround(r, i, s[i], x);
  }

  lemma InsertBySizeMember(free: seq<Block>, b: Block, x: Block)
    ensures x in InsertBySize(free, b) <==> x == b || x in free
  {
    CountInsert(free, b, x);
    CountMember(free, x);
    CountMember(InsertBySize(free, b), x);
  }

  /** A walk that stops at the first larger block stops at the insertion point. */
  lemma InsertPosUnique(free: seq<Block>, size: nat, k: nat)
    requires k <= |free|
    requires forall i | 0 <= i < k :: free[i].size <= size
    requires k < |free| ==> free[k].size > size
    ensures InsertPos(free, size) == k
  {
  }

  lemma WithoutSorted(s: seq<Block>, i: nat)
    requires i < |s| && Sorted(s)
    ensures Sorted(Without(s, i))
  {
  }

  lemma {:induction false} ChainConcat(a: seq<Block>, b: seq<Block>, lo: nat, mid: nat, hi: nat)
    requires Chain(a, lo, mid) && Chain(b, mid, hi)
    ensures Chain(a + b, lo, hi)
  {
    if a == [] {
      assert a + b == b;
    } else {
      ChainConcat(a[1..], b, a[0].End(), mid, hi);
      assert (a + b)[1..] == a[1..] + b;
    }
  }

  /** A chain can be cut before any of its blocks. */
  lemma {:induction false} ChainCut(order: seq<Block>, k: nat, lo: nat, hi: nat)
    requires k < |order| && Chain(order, lo, hi)
    ensures Chain(order[..k], lo, order[k].addr)
    ensures order[k].size >= MIN_PAYLOAD
    ensures Chain(order[k + 1..], order[k].End(), hi)
  {
    if k == 0 {
      assert order[..0] == [];
    } else {
      ChainCut(order[1..], k - 1, order[0].End(), hi);
      assert order[1..][..k - 1] == order[..k][1..];
      assert order[1..][k..] == order[k + 1..];
    }
  }

  lemma {:induction false} ChainBounds(order: seq<Block>, lo: nat, hi: nat)
    requires Chain(order, lo, hi)
    ensures lo <= hi
    ensures forall b | b in order :: lo <= b.addr && b.End() <= hi && b.size >= MIN_PAYLOAD
  {
    if order != [] {
      ChainBounds(order[1..], order[0].End(), hi);
      assert forall b | b in order :: b == order[0] || b in order[1..];
    }
  }

  lemma ChainDisjoint(order: seq<Block>, i: nat, j: nat, lo: nat, hi: nat)
    requires Chain(order, lo, hi) && i < j < |order|
    ensures order[i].End() <= order[j].addr
  {
    ChainCut(order, i, lo, hi);
    ChainBounds(order[i + 1..], order[i].End(), hi);
    assert order[j] == order[i + 1..][j - i - 1];
  }

  lemma {:induction false} ChainCovers(order: seq<Block>, x: nat, lo: nat, hi: nat) returns (b: Block)
    requires Chain(order, lo, hi) && lo <= x < hi
    ensures b in order && b.addr <= x < b.End()
  {
    if x < order[0].End() {
      b := order[0];
    } else {
      b := ChainCovers(order[1..], x, order[0].End(), hi);
    }
  }

  // ---------------------------------------------------------------- what the invariant means

  /** Two blocks of a sequence that hold the same contents as a chain do not overlap. */
  lemma DisjointInChain(s: seq<Block>, order: seq<Block>, i: nat, j: nat, lo: nat, hi: nat)
    requires Chain(order, lo, hi) && (forall x :: Count(order, x) == Count(s, x)) && i < j < |s|
    ensures Apart(s[i], s[j])
  {
    CountMember(s, s[i]);
    CountMember(s, s[j]);
    CountMember(order, s[i]);
    CountMember(order, s[j]);
    var p :| 0 <= p < |order| && order[p] == s[i];
    var q :| 0 <= q < |order| && order[q] == s[j];
    if p == q {
      q := SecondOccurrence(s, order, i, j, p);
    }
    if p < q { ChainDisjoint(order, p, q, lo, hi); } else { ChainDisjoint(order, q, p, lo, hi); }
  }

  lemma SecondOccurrence(s: seq<Block>, t: seq<Block>, i: nat, j: nat, p: nat) returns (q: nat)
    requires i < j < |s| && s[i] == s[j] && p < |t| && t[p] == s[i]
    requires Count(s, s[i]) == Count(t, s[i])
    ensures q < |t| && q != p && t[q] == t[p]
  {
    var x := s[i];
    CountWithout(s, i, x);
    CountWithout(t, p, x);
    assert Without(s, i)[j - 1] == x;
    CountMember(Without(s, i), x);
    CountMember(Without(t, p), x);
    var r :| 0 <= r < |Without(t, p)| && Without(t, p)[r] == x;
    q := if r < p then r else r + 1;
  }

  lemma TilingSame(h: Heap, order: seq<Block>, x: Block)
    requires Tiling(h, order)
    ensures Count(order, x) == Count(h.Blocks(), x)
    ensures x in order <==> x in h.Blocks()
  {
    CountConcat(h.used, h.free, x);
    CountMember(order, x);
    CountMember(h.Blocks(), x);
  }

  /** The blocks tile the arena: inside it and at least minimal, ... */
  lemma InvBounds(h: Heap, b: Block)
    requires Inv(h) && b in h.Blocks()
    ensures h.start <= b.addr && b.End() <= h.End() && b.size >= MIN_PAYLOAD
  {
    var order :| Tiling(h, order);
    TilingSame(h, order, b);
    ChainBounds(order, h.start, h.End());
  }

  /** ... pairwise disjoint, so that no block is on both lists or twice on one, ... */
  lemma InvDisjoint(h: Heap, i: nat, j: nat)
    requires Inv(h) && i < j < |h.Blocks()|
    ensures Apart(h.Blocks()[i], h.Blocks()[j])
  {
    var order :| Tiling(h, order);
    forall x ensures Count(order, x) == Count(h.Blocks(), x) { TilingSame(h, order, x); }
    DisjointInChain(h.Blocks(), order, i, j, h.start, h.End());
  }

  /** No block starts inside another one, or at or past the end of the arena. */
  lemma NoBlockAt(h: Heap, x: nat)
    requires Inv(h)
    requires x >= h.End() || exists b :: b in h.Blocks() && b.addr < x < b.End()
    ensures forall c | c in h.Blocks() :: c.addr != x
  {
    forall c | c in h.Blocks() ensures c.addr != x {
      InvBounds(h, c);
      if x < h.End() {
        var b :| b in h.Blocks() && b.addr < x < b.End();
        var i :| 0 <= i < |h.Blocks()| && h.Blocks()[i] == b;
        var j :| 0 <= j < |h.Blocks()| && h.Blocks()[j] == c;
        if i < j { InvDisjoint(h, i, j); } else if j < i { InvDisjoint(h, j, i); }
      }
    }
  }

  /** ... and leaving no gap. */
  lemma InvCovers(h: Heap, x: nat)
    requires Inv(h) && h.start <= x < h.End()
    ensures Covered(h.Blocks(), x)
  {
    var order :| Tiling(h, order);
    var b := ChainCovers(order, x, h.start, h.End());
    TilingSame(h, order, b);
  }

  function Total(s: seq<Block>): nat {
    if s == [] then 0 else HEADER + s[0].size + Total(s[1..])
  }

  lemma {:induction false} TotalConcat(a: seq<Block>, b: seq<Block>)
    ensures Total(a + b) == Total(a) + Total(b)
  {
    if a == [] {
      assert a + b == b;
    } else {
      TotalConcat(a[1..], b);
      assert (a + b)[1..] == a[1..] + b;
    }
  }

  lemma TotalWithout(s: seq<Block>, k: nat)
    requires k < |s|
    ensures Total(s) == Total(Without(s, k)) + HEADER + s[k].size
  {
    var a, b := s[..k], s[k..];
    assert b[1..] == s[k + 1..];
    assert Total(b) == HEADER + s[k].size + Total(s[k + 1..]);
    TotalConcat(a, s[k + 1..]);
    TotalConcat(a, b);
    assert s == a + b;
  }

  lemma CountNonEmpty(s: seq<Block>)
    requires s != []
    ensures exists x :: Count(s, x) > 0
  {
    assert Count(s, s[0]) > 0;
  }

  lemma {:induction false} TotalPermutation(a: seq<Block>, b: seq<Block>)
    requires forall x :: Count(a, x) == Count(b, x)
    ensures Total(a) == Total(b)
  {
    if a == [] {
      if b != [] { CountNonEmpty(b); }
    } else {
      CountMember(b, a[0]);
      var k :| 0 <= k < |b| && b[k] == a[0];
      forall x ensures Count(a[1..], x) == Count(Without(b, k), x) {
        CountWithout(b, k, x);
      }
      TotalPermutation(a[1..], Without(b, k));
      TotalWithout(b, k);
    }
  }

  lemma {:induction false} TotalChain(order: seq<Block>, lo: nat, hi: nat)
    requires Chain(order, lo, hi)
    ensures Total(order) == hi - lo
  {
    if order != [] { TotalChain(order[1..], order[0].End(), hi); }
  }

  /** Headers and payloads of both lists add up to the current size. */
  lemma InvConserves(h: Heap)
    requires Inv(h)
    ensures Total(h.used) + Total(h.free) == h.cur
  {
    var order :| Tiling(h, order);
    TotalConcat(h.used, h.free);
    forall x ensures Count(order, x) == Count(h.used + h.free, x) { CountConcat(h.used, h.free, x); }
    TotalPermutation(order, h.used + h.free);
    TotalChain(order, h.start, h.End());
  }

  // ---------------------------------------------------------------- preservation

  lemma EmptyInv(start: nat, max: nat)
    ensures Inv(Empty(start, max))
  {
    assert Tiling(Empty(start, max), []);
  }

  /** Cutting a block of a chain in two. */
  lemma ChainSplit(order: seq<Block>, k: nat, x: Block, y: Block, lo: nat, hi: nat)
    requires Chain(order, lo, hi) && k < |order|
    requires x.addr == order[k].addr && y.addr == x.End() && y.End() == order[k].End()
    requires x.size >= MIN_PAYLOAD && y.size >= MIN_PAYLOAD
    ensures Chain(order[..k] + [x, y] + order[k + 1..], lo, hi)
  {
    ChainCut(order, k, lo, hi);
    ChainTwo(x, y);
    ChainConcat(order[..k], [x, y], lo, x.addr, y.End());
    ChainConcat(order[..k] + [x, y], order[k + 1..], lo, y.End(), hi);
  }

  lemma ChainTwo(a: Block, b: Block)
    requires a.size >= MIN_PAYLOAD && b.size >= MIN_PAYLOAD && b.addr == a.End()
    ensures Chain([a, b], a.addr, b.End())
  {
    assert [a, b][1..] == [b];
    assert Chain([b], b.addr, b.End());
  }

  lemma CountTwo(a: Block, b: Block, x: Block)
    ensures Count([a, b], x) == One(a, x) + One(b, x)
  {
    assert [a, b][1..] == [b];
    assert Count([b], x) == One(b, x);
  }

  lemma CountSplit(order: seq<Block>, k: nat, a: Block, b: Block, x: Block)
    requires k < |order|
    ensures Count(order[..k] + [a, b] + order[k + 1..], x) + One(order[k], x) == Count(order, x) + One(a, x) + One(b, x)
  {
    CountWithout(order, k, x);
    CountConcat(order[..k], order[k + 1..], x);
    CountConcat(order[..k], [a, b], x);
    CountConcat(order[..k] + [a, b], order[k + 1..], x);
    CountTwo(a, b, x);
  }

  lemma TakeSorted(h: Heap, i: nat, n: nat)
    requires Sorted(h.free) && i < |h.free| && h.free[i].size >= n
    ensures Sorted(Take(h, i, n).free)
  {
    var b, rest := h.free[i], Without(h.free, i);
    assert Sorted(rest) by { WithoutSorted(h.free, i); }
    if b.size - n >= MIN_PAYLOAD + HEADER {
      var cut := Block(b.addr + n + HEADER, b.size - (n + HEADER));
      assert Sorted(InsertBySize(rest, cut)) by { InsertBySizeSorted(rest, cut); }
      assert Take(h, i, n).free == InsertBySize(rest, cut);
    } else {
      assert Take(h, i, n).free == rest;
    }
  }

  /** Handing out a whole block moves it from one list to the other. */
  lemma TakeWholeCount(h: Heap, i: nat, order: seq<Block>, x: Block)
    requires SameContents(order, h.used, h.free) && i < |h.free|
    ensures Count(order, x) == Count(h.used + [h.free[i]], x) + Count(Without(h.free, i), x)
  {
    CountAdd(h.used, h.free[i], x);
    CountWithout(h.free, i, x);
  }

  /** Splitting a block replaces it by its two parts, one on each list. */
  lemma TakeSplitCount(h: Heap, i: nat, order: seq<Block>, k: nat, fst: Block, cut: Block, x: Block)
    requires SameContents(order, h.used, h.free) && i < |h.free| && k < |order| && order[k] == h.free[i]
    ensures Count(order[..k] + [fst, cut] + order[k + 1..], x) ==
            Count(h.used + [fst], x) + Count(InsertBySize(Without(h.free, i), cut), x)
  {
    CountSplit(order, k, fst, cut, x);
    CountAdd(h.used, fst, x);
    CountWithout(h.free, i, x);
    CountInsert(Without(h.free, i), cut, x);
  }

  lemma TakeTiling(h: Heap, i: nat, n: nat, order: seq<Block>) returns (order': seq<Block>)
    requires Tiling(h, order) && i < |h.free| && h.free[i].size >= n >= MIN_PAYLOAD
    ensures Tiling(Take(h, i, n), order')
  {
    var b, h' := h.free[i], Take(h, i, n);
    if b.size - n < MIN_PAYLOAD + HEADER {
      order' := order;
      forall x ensures Count(order', x) == Count(h'.used, x) + Count(h'.free, x) { TakeWholeCount(h, i, order, x); }
    } else {
      var fst, cut := Block(b.addr, n), Block(b.addr + n + HEADER, b.size - (n + HEADER));
      CountMember(h.free, b);
      CountMember(order, b);
      var k :| 0 <= k < |order| && order[k] == b;
      order' := order[..k] + [fst, cut] + order[k + 1..];
      ChainSplit(order, k, fst, cut, h.start, h.End());
      forall x ensures Count(order', x) == Count(h'.used, x) + Count(h'.free, x) {
        TakeSplitCount(h, i, order, k, fst, cut, x);
      }
    }
  }

  lemma TakeInv(h: Heap, i: nat, n: nat)
    requires Inv(h) && i < |h.free| && h.free[i].size >= n >= MIN_PAYLOAD
    ensures Inv(Take(h, i, n))
  {
    TakeSorted(h, i, n);
    var order :| Tiling(h, order);
    order := TakeTiling(h, i, n, order);
  }

  lemma GrowOneInv(h: Heap, n: nat)
    requires Inv(h) && n >= MIN_PAYLOAD
    ensures Inv(GrowOne(h, n))
  {
    var order :| Tiling(h, order);
    var b := Block(h.End(), n);
    assert Chain([b], h.End(), b.End());
    ChainConcat(order, [b], h.start, h.End(), b.End());
    forall x ensures Count(order + [b], x) == Count(h.used + [b], x) + Count(h.free, x) {
      CountAdd(order, b, x);
      CountAdd(h.used, b, x);
    }
    assert Tiling(GrowOne(h, n), order + [b]);
  }

  lemma GrowSplitTiling(h: Heap, n: nat, gap: nat, order: seq<Block>) returns (order': seq<Block>)
    requires Tiling(h, order) && n >= MIN_PAYLOAD && gap >= 2 * HEADER + MIN_PAYLOAD
    ensures Tiling(GrowSplit(h, n, gap), order')
  {
    var left, right := Block(h.End(), gap - 2 * HEADER), Block(h.End() + gap - HEADER, n);
    ChainTwo(left, right);
    ChainConcat(order, [left, right], h.start, h.End(), right.End());
    order' := order + [left, right];
    forall x ensures Count(order', x) == Count(h.used + [right], x) + Count(InsertBySize(h.free, left), x) {
      CountConcat(order, [left, right], x);
      CountTwo(left, right, x);
      CountAdd(h.used, right, x);
      CountInsert(h.free, left, x);
    }
  }

  lemma GrowSplitInv(h: Heap, n: nat, gap: nat)
    requires Inv(h) && n >= MIN_PAYLOAD && gap >= 2 * HEADER + MIN_PAYLOAD
    ensures Inv(GrowSplit(h, n, gap))
  {
    InsertBySizeSorted(h.free, Block(h.End(), gap - 2 * HEADER));
    var order :| Tiling(h, order);
    order := GrowSplitTiling(h, n, gap, order);
  }

  lemma GrowAcrossInv(h: Heap, n: nat, gap: nat)
    requires Inv(h) && n >= MIN_PAYLOAD
    ensures Inv(GrowAcross(h, n, gap))
  {
    if gap >= 2 * HEADER + MIN_PAYLOAD {
      GrowSplitInv(h, n, gap);
    } else if gap == HEADER {
      GrowOneInv(h, n);
    } else {
      GrowSplitInv(h, n, gap + PAGE);
    }
  }

  lemma GrowInv(h: Heap, n: nat, aligned: bool, h': Heap)
    requires Inv(h) && n >= MIN_PAYLOAD && Grow(h, n, aligned) == Some(h')
    ensures Inv(h')
  {
    if aligned {
      var gap := NextPage(h.End()) - h.End();
      GrowAcrossInv(h, n, gap);
      assert h' == GrowAcross(h, n, gap);
    } else {
      GrowOneInv(h, n);
    }
  }

  lemma GetFreeInv(h: Heap, request: nat, aligned: bool)
    requires Inv(h) && GetFree(h, request, aligned).Some?
    ensures Inv(GetFree(h, request, aligned).value)
  {
    var n := Rounded(request);
    var i := FirstFit(h.free, n, aligned);
    if i < |h.free| { TakeInv(h, i, n); } else { GrowInv(h, n, aligned, Grow(h, n, aligned).value); }
  }

  lemma FreeNodeInv(h: Heap, addr: nat)
    requires Inv(h) && FreeNode(h, addr).Some?
    ensures Inv(FreeNode(h, addr).value)
  {
    var i := FindUsed(h.used, addr);
    var b := h.used[i];
    var order :| Tiling(h, order);
    InsertBySizeSorted(h.free, b);
    forall x ensures Count(order, x) == Count(Without(h.used, i), x) + Count(InsertBySize(h.free, b), x) {
      CountWithout(h.used, i, x);
      CountInsert(h.free, b, x);
    }
    assert Tiling(FreeNode(h, addr).value, order);
  }

  // ---------------------------------------------------------------- one call

  /** A successful get_free appends one block to `used` and changes no other live block;
      the new block is large enough, and aligned when asked. */
  lemma GetFreeGives(h: Heap, request: nat, aligned: bool)
    requires GetFree(h, request, aligned).Some?
    ensures var h' := GetFree(h, request, aligned).value;
            && h'.start == h.start && h'.max == h.max && h'.cur >= h.cur
            && |h'.used| == |h.used| + 1
            && var b := h'.used[|h.used|];
            && h'.used == h.used + [b]
            && b.size >= request && b.size >= MIN_PAYLOAD
            && (aligned ==> b.Payload() % 0x1000 == 0)
  {
    var n := Rounded(request);
    var i := FirstFit(h.free, n, aligned);
    if i < |h.free| {
      assert Fits(h.free[i], n, aligned);
    } else if aligned {
      GrowAligned(h, n);
    }
  }

  lemma GrowAligned(h: Heap, n: nat)
    requires Grow(h, n, true).Some?
    ensures var h' := Grow(h, n, true).value;
            h'.used == h.used + [h'.used[|h'.used| - 1]] && h'.used[|h'.used| - 1].Payload() % 0x1000 == 0
  {
    var gap := NextPage(h.End()) - h.End();
    assert (h.End() + gap) % 0x1000 == 0;
    assert (h.End() + gap + PAGE) % 0x1000 == 0;
  }

  /** The block handed out overlaps no live block. */
  lemma GetFreeApart(h: Heap, request: nat, aligned: bool, u: Block)
    requires Inv(h) && GetFree(h, request, aligned).Some? && u in h.used
    ensures var h' := GetFree(h, request, aligned).value;
            |h'.used| > 0 && Apart(u, h'.used[|h'.used| - 1])
  {
    GetFreeInv(h, request, aligned);
    GetFreeGives(h, request, aligned);
    var h' := GetFree(h, request, aligned).value;
    var k :| 0 <= k < |h.used| && h.used[k] == u;
    assert h'.Blocks()[k] == u && h'.Blocks()[|h.used|] == h'.used[|h.used|];
    InvDisjoint(h', k, |h.used|);
  }

  /** The heap cannot serve a request: no free block has the size, at least 32 bytes, and,
      when a page is asked for, its payload on one; and growing to hold it, behind a header
      of 12 bytes or from the next page on, would take the heap past its maximum size. */
  predicate Exhausted(h: Heap, request: nat, aligned: bool) {
    var n, end := if request < 32 then 32 else request, h.start + h.cur;
    && (forall b | b in h.free :: !(b.size >= n && (aligned ==> (b.addr + 12) % 4096 == 0)))
    && h.max < h.cur + n + if aligned then 4096 - end % 4096 else 12
  }

  /** get_free fails exactly then. */
  lemma GetFreeFailsIff(h: Heap, request: nat, aligned: bool)
    ensures GetFree(h, request, aligned).None? <==> Exhausted(h, request, aligned)
  {
    var n := Rounded(request);
    var i := FirstFit(h.free, n, aligned);
    if i < |h.free| {
      assert h.free[i] in h.free;
    } else {
      forall b | b in h.free ensures !Fits(b, n, aligned) {
        var k :| 0 <= k < |h.free| && h.free[k] == b;
      }
    }
  }

  /** Free block `b` serves a request of `n` bytes.  What is left of it, if it is 44 bytes or
      more, is free again behind a header of its own; the heap does not grow. */
  ghost predicate HandsOut(h: Heap, h': Heap, b: Block, n: nat) {
    && b in h.free && b.size >= n && h'.cur == h.cur
    && h'.used == h.used + [Block(b.addr, if b.size < n + 44 then b.size else n)]
    && forall x :: Count(h'.free, x) == Count(h.free, x) - One(b, x) +
         if b.size < n + 44 then 0 else One(Block(b.addr + 12 + n, b.size - n - 12), x)
  }

  lemma TakeIs(h: Heap, i: nat, n: nat)
    requires i < |h.free| && h.free[i].size >= n
    ensures HandsOut(h, Take(h, i, n), h.free[i], n)
  {
    var b, rest := h.free[i], Without(h.free, i);
    forall x ensures Count(Take(h, i, n).free, x) == Count(h.free, x) - One(b, x) +
        if b.size < n + 44 then 0 else One(Block(b.addr + 12 + n, b.size - n - 12), x)
    {
      CountWithout(h.free, i, x);
      if b.size >= n + 44 { CountInsert(rest, Block(b.addr + 12 + n, b.size - n - 12), x); }
    }
  }

  lemma FitFound(free: seq<Block>, n: nat, aligned: bool, f: Block)
    requires Sorted(free) && f in free && Fits(f, n, aligned)
    ensures var i := FirstFit(free, n, aligned); i < |free| && free[i].size <= f.size
  {
    var k :| 0 <= k < |free| && free[k] == f;
    assert Fits(free[k], n, aligned);
  }

  /** While some free block will do, a smallest one of them is handed out. */
  lemma TakesSmallest(h: Heap, request: nat, aligned: bool, f: Block) returns (b: Block)
    requires Inv(h) && f in h.free && f.size >= request && f.size >= 32 && (aligned ==> (f.addr + 12) % 4096 == 0)
    ensures b.size <= f.size && (aligned ==> (b.addr + 12) % 4096 == 0)
    ensures var r := GetFree(h, request, aligned);
            r.Some? && HandsOut(h, r.value, b, if request < 32 then 32 else request)
  {
    var n := Rounded(request);
    var i := FirstFit(h.free, n, aligned);
    FitFound(h.free, n, aligned, f);
    TakeIs(h, i, n);
    b := h.free[i];
  }

  /** How far behind the end the payload of a new block is: a header or, when it is to be on
      a page, up to the next page, or the one behind that when the bytes before it make
      neither a header nor a block. */
  function PayloadAt(end: nat, aligned: bool): nat {
    var gap := 4096 - end % 4096;
    if !aligned then 12 else if gap == 12 || gap >= 56 then gap else gap + 4096
  }

  /** A block of `n` bytes has its payload `at` bytes behind the old end, which is now behind
      the block; bytes left out before it are a free block. */
  ghost predicate PutsBehind(h: Heap, h': Heap, at: nat, n: nat) {
    && at >= 12 && h'.cur == h.cur + at + n && h'.used == h.used + [Block(h.start + h.cur + at - 12, n)]
    && forall x :: Count(h'.free, x) == Count(h.free, x) +
         if at < 24 then 0 else One(Block(h.start + h.cur, at - 24), x)
  }

  lemma LeftBlockIs(h: Heap, n: nat, gap: nat)
    requires gap >= 24
    ensures PutsBehind(h, GrowSplit(h, n, gap), gap, n)
  {
    var left := Block(h.start + h.cur, gap - 24);
    forall x ensures Count(InsertBySize(h.free, left), x) == Count(h.free, x) + One(left, x) {
      CountInsert(h.free, left, x);
    }
  }

  lemma GrowAcrossIs(h: Heap, n: nat, gap: nat)
    ensures PutsBehind(h, GrowAcross(h, n, gap), if gap == 12 || gap >= 56 then gap else gap + 4096, n)
  {
    if gap >= 56 { LeftBlockIs(h, n, gap); } else if gap != 12 { LeftBlockIs(h, n, gap + 4096); }
  }

  lemma GrowIs(h: Heap, n: nat, aligned: bool, gap: nat)
    requires gap == NextPage(h.End()) - h.End() && Grow(h, n, aligned).Some?
    ensures PutsBehind(h, Grow(h, n, aligned).value,
                       if !aligned then 12 else if gap == 12 || gap >= 56 then gap else gap + 4096, n)
  {
    if aligned { GrowAcrossIs(h, n, gap); }
  }

  lemma GapIs(end: nat, gap: nat)
    requires gap == NextPage(end) - end
    ensures gap == 4096 - end % 4096
  {
  }

  lemma NoneFound(free: seq<Block>, n: nat, aligned: bool)
    requires forall b | b in free :: !Fits(b, n, aligned)
    ensures FirstFit(free, n, aligned) == |free|
  {
    forall i | 0 <= i < |free| ensures !Fits(free[i], n, aligned) { assert free[i] in free; }
    FirstFitUnique(free, n, aligned, |free|);
  }

  /** While none will do, the block is put behind the end. */
  lemma GrowsAtEnd(h: Heap, request: nat, aligned: bool)
    requires forall b | b in h.free :: !Fits(b, Rounded(request), aligned)
    requires GetFree(h, request, aligned).Some?
    ensures PutsBehind(h, GetFree(h, request, aligned).value, PayloadAt(h.start + h.cur, aligned),
                       if request < 32 then 32 else request)
  {
    var n := Rounded(request);
    NoneFound(h.free, n, aligned);
    var gap := NextPage(h.End()) - h.End();
    GapIs(h.End(), gap);
    GrowIs(h, n, aligned, gap);
  }

  /** First fit on the sorted list is best fit: an unaligned request served from the free
      list takes a smallest sufficient block, and the heap grows only when none suffices. */
  lemma BestFit(h: Heap, request: nat)
    requires Inv(h)
    ensures var n, i := Rounded(request), FirstFit(h.free, Rounded(request), false);
            && (i == |h.free| <==> forall b | b in h.free :: b.size < n)
            && (i < |h.free| ==> forall b | b in h.free && b.size >= n :: h.free[i].size <= b.size)
  {
    var n := Rounded(request);
    var i := FirstFit(h.free, n, false);
    if i < |h.free| {
      assert h.free[i] in h.free;
      forall b | b in h.free && b.size >= n ensures h.free[i].size <= b.size {
        var k :| 0 <= k < |h.free| && h.free[k] == b;
        assert Fits(h.free[k], n, false);
      }
    } else {
      forall b | b in h.free ensures b.size < n {
        var k :| 0 <= k < |h.free| && h.free[k] == b;
        assert !Fits(h.free[k], n, false);
      }
    }
  }

  lemma UsedAddressesDistinct(h: Heap, i: nat, j: nat)
    requires Inv(h) && i < |h.used| && j < |h.used| && h.used[i].addr == h.used[j].addr
    ensures i == j
  {
    if i != j {
      var lo, hi := if i < j then i else j, if i < j then j else i;
      assert h.Blocks()[lo] == h.used[lo] && h.Blocks()[hi] == h.used[hi];
      InvDisjoint(h, lo, hi);
    }
  }

  /** free_node succeeds exactly on the addresses of live blocks, ... */
  lemma FreeNodeSucceedsIff(h: Heap, addr: nat)
    ensures FreeNode(h, addr).Some? <==> exists b :: b in h.used && b.addr == addr
  {
    var i := FindUsed(h.used, addr);
    if i < |h.used| { assert h.used[i] in h.used; }
    if b :| b in h.used && b.addr == addr {
      var k :| 0 <= k < |h.used| && h.used[k] == b;
    }
  }

  /** ... moves that one block, unchanged, to the free list, ... */
  lemma FreeNodeMoves(h: Heap, addr: nat, b: Block)
    requires Inv(h) && FreeNode(h, addr).Some?
    ensures var h' := FreeNode(h, addr).value;
            && (b in h'.used <==> b in h.used && b.addr != addr)
            && (b in h'.free <==> b in h.free || (b in h.used && b.addr == addr))
  {
    var i := FindUsed(h.used, addr);
    var rest := Without(h.used, i);
    InsertBySizeMember(h.free, h.used[i], b);
    if b in h.used {
      var k :| 0 <= k < |h.used| && h.used[k] == b;
      if b.addr == addr {
        UsedAddressesDistinct(h, i, k);
      } else {
        assert rest[if k < i then k else k - 1] == b;
      }
    }
    if b in rest {
      var k :| 0 <= k < |rest| && rest[k] == b;
      var k' := if k < i then k else k + 1;
      assert b == h.used[k'];
      if b.addr == addr { UsedAddressesDistinct(h, i, k'); }
    }
  }

  /** ... so that freeing the same address twice in a row fails the second time. */
  lemma DoubleFreeFails(h: Heap, addr: nat)
    requires Inv(h) && FreeNode(h, addr).Some?
    ensures FreeNode(FreeNode(h, addr).value, addr).None?
  {
    var h' := FreeNode(h, addr).value;
    FreeNodeSucceedsIff(h', addr);
    if b :| b in h'.used && b.addr == addr { FreeNodeMoves(h, addr, b); }
  }

  /** Freeing what was just allocated restores the live blocks. */
  lemma AllocThenFree(h: Heap, request: nat, aligned: bool)
    requires Inv(h) && GetFree(h, request, aligned).Some?
    ensures var h' := GetFree(h, request, aligned).value;
            && |h'.used| > 0
            && var r := FreeNode(h', h'.used[|h'.used| - 1].addr);
            r.Some? && r.value.used == h.used && Inv(r.value)
  {
    GetFreeGives(h, request, aligned);
    GetFreeInv(h, request, aligned);
    var h' := GetFree(h, request, aligned).value;
    var addr := h'.used[|h.used|].addr;
    FreeNodeInv(h', addr);
    UsedAddressesDistinct(h', FindUsed(h'.used, addr), |h.used|);
    assert Without(h'.used, |h.used|) == h.used;
  }

  // ---------------------------------------------------------------- whole runs

  datatype Call = Get(request: nat, aligned: bool) | Free(addr: nat)

  /** A failing call leaves the heap as it was. */
  function Step(h: Heap, c: Call): Heap {
    var r := match c
             case Get(n, aligned) => GetFree(h, n, aligned)
             case Free(a) => FreeNode(h, a);
    if r.Some? then r.value else h
  }

  function Run(h: Heap, calls: seq<Call>): Heap
    decreases |calls|
  {
    if calls == [] then h
    else Step(Run(h, calls[..|calls| - 1]), calls[|calls| - 1])
  }

  lemma StepInv(h: Heap, c: Call)
    requires Inv(h)
    ensures Inv(Step(h, c)) && Step(h, c).start == h.start && Step(h, c).max == h.max
  {
    match c {
      case Get(n, aligned) =>
        if GetFree(h, n, aligned).Some? {
          GetFreeInv(h, n, aligned);
          GetFreeGives(h, n, aligned);
        }
      case Free(a) =>
        if FreeNode(h, a).Some? { FreeNodeInv(h, a); }
    }
  }

  /** In every run from an empty heap the two lists tile the arena (see InvBounds,
      InvDisjoint and InvCovers), the free list is sorted, and the sizes add up. */
  lemma {:induction false} RunInv(start: nat, max: nat, calls: seq<Call>)
    ensures var h := Run(Empty(start, max), calls);
            Inv(h) && h.start == start && h.max == max && Total(h.used) + Total(h.free) == h.cur
    decreases |calls|
  {
    var h := Run(Empty(start, max), calls);
    if calls == [] {
      EmptyInv(start, max);
    } else {
      var k := |calls| - 1;
      RunInv(start, max, calls[..k]);
      StepInv(Run(Empty(start, max), calls[..k]), calls[k]);
    }
    InvConserves(h);
  }

  /** A live block keeps its address and size through every run that does not free it. */
  lemma {:induction false} LiveBlockUntouched(h: Heap, calls: seq<Call>, b: Block)
    requires Inv(h) && b in h.used && Free(b.addr) !in calls
    ensures b in Run(h, calls).used && Inv(Run(h, calls))
    decreases |calls|
  {
    if calls != [] {
      var k := |calls| - 1;
      LiveBlockUntouched(h, calls[..k], b);
      var prev := Run(h, calls[..k]);
      StepInv(prev, calls[k]);
      match calls[k] {
        case Get(n, aligned) =>
          if GetFree(prev, n, aligned).Some? { GetFreeGives(prev, n, aligned); }
        case Free(a) =>
          if FreeNode(prev, a).Some? { FreeNodeMoves(prev, a, b); }
      }
    }
  }

  /** No call takes the heap further than one page past its maximum size, and an
      unaligned one never takes it past the maximum. */
  lemma GetFreeBounded(h: Heap, request: nat, aligned: bool)
    requires GetFree(h, request, aligned).Some?
    ensures h.cur <= h.max + PAGE ==> GetFree(h, request, aligned).value.cur <= h.max + PAGE
    ensures h.cur <= h.max && !aligned ==> GetFree(h, request, aligned).value.cur <= h.max
    ensures GetFree(h, request, aligned).value.max == h.max
  {
    var n := Rounded(request);
    var i := FirstFit(h.free, n, aligned);
    if i < |h.free| {
      assert Take(h, i, n).cur == h.cur;
    } else if aligned {
      var gap := NextPage(h.End()) - h.End();
      assert GrowAcross(h, n, gap).cur <= h.cur + gap + PAGE + n;
    }
  }

  predicate Unaligned(calls: seq<Call>) {
    forall c | c in calls :: c.Get? ==> !c.aligned
  }

  /** The size bound over whole runs. */
  lemma {:induction false} RunBounded(start: nat, max: nat, calls: seq<Call>)
    ensures Run(Empty(start, max), calls).cur <= max + PAGE
    ensures Unaligned(calls) ==> Run(Empty(start, max), calls).cur <= max
    ensures Run(Empty(start, max), calls).max == max
    decreases |calls|
  {
    if calls != [] {
      var k := |calls| - 1;
      RunBounded(start, max, calls[..k]);
      var prev := Run(Empty(start, max), calls[..k]);
      assert calls[k] in calls;
      assert Unaligned(calls) ==> Unaligned(calls[..k]);
      match calls[k] {
        case Get(n, aligned) =>
          if GetFree(prev, n, aligned).Some? { GetFreeBounded(prev, n, aligned); }
        case Free(_) =>
      }
    }
  }

  /** Exactly when a call takes the heap past its maximum: an aligned request that finds
      no free block and whose distance to the next page is neither a header nor room for
      a left block, so that a whole extra page is added after the check was made. */
  lemma ExceedsMaxIff(h: Heap, request: nat, aligned: bool)
    requires h.cur <= h.max
    ensures var n, gap := Rounded(request), NextPage(h.End()) - h.End();
            Step(h, Get(request, aligned)).cur > h.max <==>
            && aligned
            && FirstFit(h.free, n, true) == |h.free|
            && gap < 2 * HEADER + MIN_PAYLOAD && gap != HEADER
            && h.cur + gap + n <= h.max < h.cur + gap + PAGE + n
  {
  }

  /** A two-call run that ends past its maximum size. */
  lemma ExceedsMaxExample()
    ensures Run(Empty(0x2000, 0x1020), [Get(0xFC4, false), Get(32, true)]).cur > 0x1020
  {
    var calls := [Get(0xFC4, false), Get(32, true)];
    var h0 := Empty(0x2000, 0x1020);
    assert calls[..1] == [calls[0]] && [calls[0]][..0] == [];
    assert Run(h0, []) == h0;
    var h1 := Run(h0, calls[..1]);
    assert h1 == Step(h0, calls[0]);
    assert h1.cur == 0xFD0 && h1.free == [];
  }
}
