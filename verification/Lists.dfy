/** Lists of addresses without repetition. */
module Lists {

  function FirstOr(s: seq<nat>, none: nat): nat { if s == [] then none else s[0] }
  function LastOr(s: seq<nat>, none: nat): nat { if s == [] then none else s[|s| - 1] }

  predicate NoDup(s: seq<nat>) {
    s == [] || (s[0] !in s[1..] && NoDup(s[1..]))
  }

  lemma {:induction false} NoDupConcat(a: seq<nat>, b: seq<nat>)
    ensures NoDup(a + b) <==> NoDup(a) && NoDup(b) && forall x | x in a :: x !in b
  {
    if a == [] {
      assert a + b == b;
    } else {
      NoDupConcat(a[1..], b);
      assert (a + b)[1..] == a[1..] + b;
      assert forall x :: x in a <==> x == a[0] || x in a[1..];
    }
  }

  lemma NoDupMiddle(a: seq<nat>, x: nat, b: seq<nat>)
    ensures NoDup(a + [x] + b) <==> NoDup(a + b) && x !in a && x !in b
  {
    NoDupConcat(a, b);
    NoDupConcat(a, [x]);
    NoDupConcat(a + [x], b);
  }
}
