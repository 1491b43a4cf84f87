/** Arithmetic of blocks of equal size, by repeated addition. */
module Blocks {

  /** The bytes in `n` blocks, and so the offset of block `n`. */
  function Start(n: nat, bs: nat): nat {
    if n == 0 then 0 else Start(n - 1, bs) + bs
  }

  lemma {:induction false} StartIsProduct(n: nat, bs: nat)
    ensures Start(n, bs) == n * bs
  {
    if n > 0 { StartIsProduct(n - 1, bs); }
  }

  lemma Whole(x: nat, bs: nat)
    requires bs > 0
    ensures x == Start(x / bs, bs) + x % bs && x % bs < bs && (x / bs == 0 <==> x < bs)
  {
    StartIsProduct(x / bs, bs);
  }

  lemma {:induction false} StartAdds(a: nat, b: nat, bs: nat)
    ensures Start(a + b, bs) == Start(a, bs) + Start(b, bs)
  {
    if b > 0 { StartAdds(a, b - 1, bs); }
  }

  lemma {:induction false} StartMonotone(a: nat, b: nat, bs: nat)
    requires a <= b
    ensures Start(a, bs) <= Start(b, bs)
  {
    if a < b { StartMonotone(a, b - 1, bs); }
  }

  lemma StartNext(a: nat, n: nat, bs: nat)
    requires a < n
    ensures Start(a, bs) + bs <= Start(n, bs)
  {
    StartMonotone(a + 1, n, bs);
  }

  /** A byte behind the start of a block means that the whole block is there. */
  lemma InBlocks(n: nat, bs: nat, lba: nat)
    requires Start(lba, bs) < Start(n, bs)
    ensures Start(lba, bs) + bs <= Start(n, bs)
  {
    if n <= lba {
      StartMonotone(n, lba, bs);
    } else {
      StartMonotone(lba + 1, n, bs);
    }
  }

  lemma DivideBack(q: nat, r: nat, bs: nat, x: nat)
    requires r < bs && x == Start(q, bs) + r
    ensures x / bs == q
  {
    Whole(x, bs);
    var q' := x / bs;
    if q' < q {
      StartMonotone(q' + 1, q, bs);
    } else if q < q' {
      StartMonotone(q + 1, q', bs);
    }
  }

  lemma AddMod(x: nat, y: nat, bs: nat)
    requires bs > 0 && x % bs == 0 && y % bs == 0
    ensures (x + y) % bs == 0
  {
    Whole(x, bs);
    Whole(y, bs);
    StartAdds(x / bs, y / bs, bs);
    DivideBack(x / bs + y / bs, 0, bs, x + y);
    Whole(x + y, bs);
  }

  /** Blocks of blocks are blocks. */
  lemma {:induction false} StartAligned(n: nat, size: nat, bs: nat)
    requires bs > 0 && size % bs == 0
    ensures Start(n, size) % bs == 0
  {
    if n > 0 {
      StartAligned(n - 1, size, bs);
      AddMod(Start(n - 1, size), size, bs);
    }
  }

  /** Division and remainder by repeated subtraction. */
  function Quot(x: nat, bs: nat): nat
    requires bs > 0
  {
    if x < bs then 0 else Quot(x - bs, bs) + 1
  }

  function Rest(x: nat, bs: nat): (r: nat)
    requires bs > 0
    ensures r < bs
  {
    if x < bs then x else Rest(x - bs, bs)
  }

  lemma {:induction false} QuotRest(x: nat, bs: nat)
    requires bs > 0
    ensures x == Start(Quot(x, bs), bs) + Rest(x, bs)
  {
    if x >= bs { QuotRest(x - bs, bs); }
  }

  lemma {:induction false} QuotOf(q: nat, r: nat, bs: nat)
    requires r < bs
    ensures Quot(Start(q, bs) + r, bs) == q && Rest(Start(q, bs) + r, bs) == r
  {
    if q > 0 { QuotOf(q - 1, r, bs); }
  }

  lemma QuotIsDivision(x: nat, bs: nat)
    requires bs > 0
    ensures Quot(x, bs) == x / bs && Rest(x, bs) == x % bs
  {
    Whole(x, bs);
    QuotOf(x / bs, x % bs, bs);
  }
}
