/** The bitmap of physical frames of kernel/mm/paging.c, refined against the set of the
    frames that are free.

    A 32-bit word is a number, and its bits are read off by halving it. */
module Frames {

  const PAGE_SIZE: nat := 0x1000

  type Word = w: int | 0 <= w < 0x1_0000_0000

  const FULL: Word := 0xFFFFFFFF

  /** 0x1 << j */
  function Pow2(j: nat): (p: nat)
    ensures p > 0
  {
    if j == 0 then 1 else 2 * Pow2(j - 1)
  }

  /** (w >> j) & 0x1, which is GETBIT of kernel/include/libk/bit.h and also tells whether
      w & (0x1 << j) is zero. */
  predicate Bit(w: nat, j: nat)
    decreases j
  {
    if j == 0 then w % 2 == 1 else Bit(w / 2, j - 1)
  }

  /** w | (0x1 << j) */
  function OrBit(w: nat, j: nat): nat {
    if Bit(w, j) then w else w + Pow2(j)
  }

  predicate Used(words: seq<Word>, frame: nat) {
    frame / 32 < |words| && Bit(words[frame / 32], frame % 32)
  }

  /** The free ones among the first `n` frames. */
  ghost function FreeBelow(words: seq<Word>, n: nat): set<nat> {
    set f: nat | f < n && !Used(words, f)
  }

  ghost function FreeFrames(words: seq<Word>): set<nat> { FreeBelow(words, 32 * |words|) }

  // ---------------------------------------------------------------- bits

  /** Setting a bit sets that bit and no other, ... */
  lemma {:induction false} SetBit(w: nat, j: nat, k: nat)
    ensures Bit(OrBit(w, j), k) <==> j == k || Bit(w, k)
    decreases j
  {
    if j > 0 {
      var p := Pow2(j - 1);
      assert (w + 2 * p) / 2 == w / 2 + p && (w + 2 * p) % 2 == w % 2;
      if k > 0 { SetBit(w / 2, j - 1, k - 1); }
    } else if k > 0 {
      assert w % 2 == 0 ==> (w + 1) / 2 == w / 2;
    }
  }

  /** ... and stays within the word. */
  lemma {:induction false} OrBitFits(w: nat, j: nat, n: nat)
    requires w < Pow2(n) && j < n
    ensures OrBit(w, j) < Pow2(n)
    decreases j
  {
    var q := Pow2(n - 1);
    assert w < 2 * q;
    if j > 0 {
      OrBitFits(w / 2, j - 1, n - 1);
      var p := Pow2(j - 1);
      assert !Bit(w, j) ==> w / 2 + p < q;
    }
  }

  lemma WordSize()
    ensures Pow2(32) == 0x1_0000_0000
  {
    assert Pow2(8) == 0x100;
    assert Pow2(16) == 0x1_0000;
    assert Pow2(24) == 0x100_0000;
  }

  lemma {:induction false} ZeroWord(j: nat)
    ensures !Bit(0, j)
    decreases j
  {
    if j > 0 { ZeroWord(j - 1); }
  }

  lemma {:induction false} OnesBits(n: nat, j: nat)
    requires j < n
    ensures Bit(Pow2(n) - 1, j)
    decreases j
  {
    assert (Pow2(n) - 1) / 2 == Pow2(n - 1) - 1;
    if j > 0 { OnesBits(n - 1, j - 1); }
  }

  lemma FullWord(j: nat)
    requires j < 32
    ensures Bit(FULL, j)
  {
    WordSize();
    OnesBits(32, j);
  }

  // ---------------------------------------------------------------- words and frames

  lemma FrameParts(i: nat, j: nat)
    requires j < 32
    ensures (32 * i + j) / 32 == i && (32 * i + j) % 32 == j
  {
  }

  lemma UsedAt(words: seq<Word>, i: nat, j: nat)
    requires i < |words| && j < 32
    ensures Used(words, 32 * i + j) <==> Bit(words[i], j)
  {
    FrameParts(i, j);
  }

  lemma SetUsed(words: seq<Word>, frame: nat, f: nat)
    requires frame / 32 < |words|
    ensures OrBit(words[frame / 32], frame % 32) < 0x1_0000_0000
    ensures Used(words[frame / 32 := OrBit(words[frame / 32], frame % 32)], f) <==> f == frame || Used(words, f)
  {
    WordSize();
    OrBitFits(words[frame / 32], frame % 32, 32);
    SetBit(words[frame / 32], frame % 32, f % 32);
  }

  lemma FreeBelowNext(words: seq<Word>, n: nat)
    ensures FreeBelow(words, n + 1) == FreeBelow(words, n) + if Used(words, n) then {} else {n}
    ensures |FreeBelow(words, n + 1)| == |FreeBelow(words, n)| + if Used(words, n) then 0 else 1
  {
    assert n !in FreeBelow(words, n);
    assert FreeBelow(words, n + 1) == FreeBelow(words, n) + if Used(words, n) then {} else {n};
  }

  /** A word of zeros stands for 32 free frames. */
  lemma {:induction false} ZeroWordFree(words: seq<Word>, i: nat, j: nat)
    requires i < |words| && words[i] == 0 && j <= 32
    ensures |FreeBelow(words, 32 * i + j)| == |FreeBelow(words, 32 * i)| + j
  {
    if j > 0 {
      ZeroWordFree(words, i, j - 1);
      UsedAt(words, i, j - 1);
      ZeroWord(j - 1);
      FreeBelowNext(words, 32 * i + (j - 1));
    }
  }

  /** alloc_frame hands out the least free frame; map_frame sets a frame whatever it was. */
  datatype FrameStep = Alloc(frame: nat) | Map(frame: nat)

  ghost predicate FrameRun(free: set<nat>, steps: seq<FrameStep>) {
    steps == [] ||
    (&& (steps[0].Alloc? ==> steps[0].frame in free && forall g | g in free :: steps[0].frame <= g)
     && FrameRun(free - {steps[0].frame}, steps[1..]))
  }

  ghost function FreeAfter(free: set<nat>, steps: seq<FrameStep>): set<nat> {
    if steps == [] then free else FreeAfter(free - {steps[0].frame}, steps[1..])
  }

  /** Frames handed out later were free all along. */
  lemma {:induction false} AllocatedWasFree(free: set<nat>, steps: seq<FrameStep>, j: nat)
    requires FrameRun(free, steps) && j < |steps| && steps[j].Alloc?
    ensures steps[j].frame in free
  {
    if j > 0 { AllocatedWasFree(free - {steps[0].frame}, steps[1..], j - 1); }
  }

  /** No frame is handed out twice, nor after it was mapped: later ones are larger. */
  lemma {:induction false} AllocationsDistinct(free: set<nat>, steps: seq<FrameStep>, i: nat, j: nat)
    requires FrameRun(free, steps) && i < j < |steps| && steps[j].Alloc?
    ensures steps[i].frame != steps[j].frame
    ensures steps[i].Alloc? ==> steps[i].frame < steps[j].frame
  {
    if i == 0 {
      AllocatedWasFree(free - {steps[0].frame}, steps[1..], j - 1);
    } else {
      AllocationsDistinct(free - {steps[0].frame}, steps[1..], i - 1, j - 1);
    }
  }

  /** Each allocation costs one frame, so a run of them no more than there are. */
  lemma {:induction false} AllocationsCost(free: set<nat>, steps: seq<FrameStep>)
    requires FrameRun(free, steps) && forall s | s in steps :: s.Alloc?
    ensures |FreeAfter(free, steps)| == |free| - |steps|
  {
    if steps != [] {
      assert steps[0] in steps && forall s | s in steps[1..] :: s in steps;
      AllocationsCost(free - {steps[0].frame}, steps[1..]);
    }
  }

  class FrameMap {
    const words: array<Word>  // g_frames, for g_nframes == 32 * words.Length

    ghost function Free(): set<nat>
      reads words
    {
      FreeFrames(words[..])
    }

    function Count(): nat { 32 * words.Length }

    constructor (n: nat)
      ensures words.Length == n && fresh(words)
      ensures forall f: nat :: f in Free() <==> f < 32 * n
    {
      words := new Word[n](_ => 0);
      new;
      forall f: nat | f < 32 * n ensures !Used(words[..], f) { ZeroWord(f % 32); }
    }

    lemma FreeInRange(f: nat)
      requires f in Free()
      ensures f < Count()
    {
    }

    /** set_frame */
    method SetFrame(addr: nat)
      requires addr / PAGE_SIZE < Count()
      modifies words
      ensures Free() == old(Free()) - {addr / PAGE_SIZE}
      ensures forall f: nat :: Used(words[..], f) <==> f == addr / PAGE_SIZE || Used(old(words[..]), f)
    {
      var frame := addr / PAGE_SIZE;
      var index, offset := frame / 32, frame % 32;
      ghost var before := words[..];
      SetUsed(before, frame, frame);
      words[index] := OrBit(words[index], offset);
      assert words[..] == before[index := OrBit(before[index], offset)];
      forall f: nat ensures Used(words[..], f) <==> f == frame || Used(before, f) { SetUsed(before, frame, f); }
    }

    /** first_frame: the least free frame, or -1 exactly when none is free. */
    method FirstFrame() returns (r: int)
      ensures r == -1 <==> Free() == {}
      ensures r != -1 ==> 0 <= r && r in Free() && forall f | f in Free() :: r <= f
    {
      var i := 0;
      while i < words.Length
        invariant 0 <= i <= words.Length
        invariant forall f: nat | f < 32 * i :: Used(words[..], f)
      {
        if words[i] != FULL {
          var j := FirstClear(i);
          if j < 32 {
            UsedAt(words[..], i, j);
            forall f: nat | f < 32 * i + j ensures Used(words[..], f) {
              if f >= 32 * i { UsedAt(words[..], i, f - 32 * i); }
            }
            assert 32 * i + j in Free();
            return i * 4 * 8 + j;
          }
        }
        forall f: nat | 32 * i <= f < 32 * (i + 1) ensures Used(words[..], f) {
          UsedAt(words[..], i, f - 32 * i);
          if words[i] == FULL { FullWord(f - 32 * i); }
        }
        i := i + 1;
      }
      return -1;
    }

    /** The inner loop of first_frame: the first clear bit of a word, or 32. */
    method FirstClear(i: nat) returns (j: nat)
      requires i < words.Length
      ensures j <= 32 && (j < 32 ==> !Bit(words[i], j)) && forall k: nat | k < j :: Bit(words[i], k)
    {
      j := 0;
      while j < 32
        invariant j <= 32
        invariant forall k: nat | k < j :: Bit(words[i], k)
      {
        if !Bit(words[i], j) { return; }
        j := j + 1;
      }
    }

    /** The inner loop of phys_freeram_amount: the clear bits of a word are the free frames
        that it adds. */
    method CountClear(i: nat) returns (n: nat)
      requires i < words.Length
      ensures |FreeBelow(words[..], 32 * i + 32)| == |FreeBelow(words[..], 32 * i)| + n
    {
      n := 0;
      var j := 0;
      while j < 32
        invariant 0 <= j <= 32
        invariant |FreeBelow(words[..], 32 * i + j)| == |FreeBelow(words[..], 32 * i)| + n
      {
        UsedAt(words[..], i, j);
        FreeBelowNext(words[..], 32 * i + j);
        if !Bit(words[i], j) { n := n + 1; }
        j := j + 1;
      }
    }

    /** phys_freeram_amount: the bytes in free frames. */
    method FreeRam() returns (r: nat)
      ensures r == |Free()| * PAGE_SIZE
    {
      var freeram := 0;
      var i := 0;
      while i < words.Length
        invariant 0 <= i <= words.Length
        invariant freeram == |FreeBelow(words[..], 32 * i)|
      {
        if words[i] == 0 {
          ZeroWordFree(words[..], i, 32);
          freeram := freeram + 32;
        } else {
          var clear := CountClear(i);
          freeram := freeram + clear;
        }
        assert 32 * (i + 1) == 32 * i + 32;
        i := i + 1;
      }
      return freeram * PAGE_SIZE;
    }
  }
}
