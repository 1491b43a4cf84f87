/** What a pipe promises: the byte stream behind kernel/yanix/ds/ringbuffer.c, without the
    ring.  `Ring` refines it. */
module ByteStream {
  import opened Basics

  type Byte = x: int | 0 <= x < 256

  const NEWLINE: Byte := 10

  /** The unread bytes, and the number of them that a blocked reader may have (cursize). */
  datatype Stream = Stream(unread: seq<Byte>, ready: nat)

  const EMPTY: Stream := Stream([], 0)

  /** The length of the longest prefix that ends in a newline. */
  function Lines(s: seq<Byte>): (n: nat)
    ensures n <= |s|
  {
    if s == [] then 0
    else if s[|s| - 1] == NEWLINE then |s|
    else Lines(s[..|s| - 1])
  }

  /** The number of bytes a blocked reader may have after `data` was written behind `len`
      unread bytes: up to the last newline or, without blocking, all of them. */
  function WriteReady(len: nat, ready: nat, data: seq<Byte>, nonblock: bool): nat {
    if nonblock && data != [] then len + |data|
    else if Lines(data) > 0 then len + Lines(data)
    else ready
  }

  function Write(s: Stream, data: seq<Byte>, nonblock: bool): Stream {
    Stream(s.unread + data, WriteReady(|s.unread|, s.ready, data, nonblock))
  }

  function Min(a: nat, b: nat): nat { if a < b then a else b }

  /** How many bytes a read of up to `n` bytes returns. */
  function Readable(s: Stream, n: nat): (m: nat)
    ensures m <= n && m <= |s.unread|
    ensures s.ready > 0 ==> m <= s.ready
  {
    Min(if s.ready > 0 then Min(n, s.ready) else n, |s.unread|)
  }

  function Read(s: Stream, n: nat): (Stream, seq<Byte>) {
    var m := Readable(s, n);
    (Stream(s.unread[m..], if s.ready > 0 then s.ready - m else 0), s.unread[..m])
  }

  function Flush(s: Stream): Stream { EMPTY }

  /** Removal of the last unread byte; None is the -1 return. */
  function Remove(s: Stream): Option<Stream> {
    if s.unread == [] then None else Some(s.(unread := s.unread[..|s.unread| - 1]))
  }

  // ---------------------------------------------------------------- first in, first out

  datatype Op = DoWrite(data: seq<Byte>, nonblock: bool) | DoRead(n: nat) | DoFlush | DoRemove

  /** One operation: the stream, and everything readers were given so far. */
  function RunOp(s: Stream, out: seq<Byte>, op: Op): (Stream, seq<Byte>) {
    match op
    case DoWrite(data, nonblock) => (Write(s, data, nonblock), out)
    case DoRead(n) => var (s', got) := Read(s, n); (s', out + got)
    case DoFlush => (Flush(s), out)
    case DoRemove => (if Remove(s).Some? then Remove(s).value else s, out)
  }

  function Run(ops: seq<Op>): (Stream, seq<Byte>)
    decreases |ops|
  {
    if ops == [] then (EMPTY, [])
    else
      var (s, out) := Run(ops[..|ops| - 1]);
      RunOp(s, out, ops[|ops| - 1])
  }

  /** The bookkeeper's view of a run.  `kept` are the bytes written, in order, less those
      that were removed or flushed, `taken` counts the bytes read, and `gate` is the place in
      `kept` behind which a reader waits: behind the last newline that was written, or behind
      everything after a write without blocking.  The bookkeeper never looks at a stream. */
  datatype Ledger = Ledger(kept: seq<Byte>, taken: nat, gate: nat)

  /** How far a reader of `n` bytes gets: up to the gate or, from the gate on, to the end. */
  function Reach(l: Ledger, n: nat): (m: nat)
    requires l.taken <= |l.kept|
    ensures l.taken <= m <= |l.kept|
  {
    var end := if l.taken < l.gate < |l.kept| then l.gate else |l.kept|;
    if l.taken + n < end then l.taken + n else end
  }

  function Enter(l: Ledger, op: Op): (l': Ledger)
    requires l.taken <= |l.kept|
    ensures l'.taken <= |l'.kept|
  {
    match op
    case DoWrite(data, nonblock) =>
      var n := if nonblock then |data| else Lines(data);
      Ledger(l.kept + data, l.taken, if n > 0 then |l.kept| + n else l.gate)
    case DoRead(n) => l.(taken := Reach(l, n))
    case DoFlush => Ledger(l.kept[..l.taken], l.taken, l.taken)
    case DoRemove => if l.taken < |l.kept| then l.(kept := l.kept[..|l.kept| - 1]) else l
  }

  function Account(ops: seq<Op>): (l: Ledger)
    ensures l.taken <= |l.kept|
    decreases |ops|
  {
    if ops == [] then Ledger([], 0, 0) else Enter(Account(ops[..|ops| - 1]), ops[|ops| - 1])
  }

  /** The ledger agrees with what readers got, with what is unread and with how much of it is
      ready. */
  predicate Agrees(l: Ledger, s: Stream, out: seq<Byte>) {
    && l.taken <= |l.kept| && out == l.kept[..l.taken] && s.unread == l.kept[l.taken..]
    && s.ready == if l.gate > l.taken then l.gate - l.taken else 0
  }

  lemma OpAgrees(l: Ledger, s: Stream, out: seq<Byte>, op: Op)
    requires Agrees(l, s, out)
    ensures var (s', out') := RunOp(s, out, op); Agrees(Enter(l, op), s', out')
  {
    assert l.kept == out + s.unread;
  }

  /** What readers were given is exactly what was written, in order, less what was removed
      or flushed, as far as the gate let them; the rest is still unread. */
  lemma {:induction false} FirstInFirstOut(ops: seq<Op>)
    ensures var (s, out) := Run(ops);
            var l := Account(ops);
            && out == l.kept[..l.taken] && s.unread == l.kept[l.taken..]
            && s.ready == if l.gate > l.taken then l.gate - l.taken else 0
    decreases |ops|
  {
    if ops != [] {
      var prev := ops[..|ops| - 1];
      FirstInFirstOut(prev);
      OpAgrees(Account(prev), Run(prev).0, Run(prev).1, ops[|ops| - 1]);
    }
  }

  /** A read delivers the front of the stream and as much of it as it may: no more than was
      asked for, than there is and, while a line is ready, than is ready; and as much as one
      of these allows. */
  lemma ReadsAllItMay(s: Stream, n: nat)
    ensures var (s', got) := Read(s, n);
            && got + s'.unread == s.unread
            && |got| <= n && |got| <= |s.unread| && (s.ready > 0 ==> |got| <= s.ready)
            && (|got| == n || |got| == |s.unread| || (s.ready > 0 && |got| == s.ready))
            && s'.ready == if s.ready > 0 then s.ready - |got| else 0
  {
  }

  /** What is written without blocking can be read at once, with all that was there. */
  lemma NonblockReadsAll(s: Stream, data: seq<Byte>, n: nat)
    requires data != []
    ensures var all := s.unread + data; Read(Write(s, data, true), n).1 == if n < |all| then all[..n] else all
  {
  }

  // ---------------------------------------------------------------- whole lines

  /** A blocked reader is let through exactly as far as the last complete line. */
  predicate LineGated(s: Stream) {
    s.ready == Lines(s.unread)
  }

  /** A text up to and with its last newline; nothing of a text that has none. */
  lemma {:induction false} LinesIs(s: seq<Byte>, n: nat)
    ensures Lines(s) == n <==>
            n <= |s| && (n > 0 ==> s[n - 1] == 10) && forall i | n <= i < |s| :: s[i] != 10
  {
    if s != [] && s[|s| - 1] != 10 {
      LinesIs(s[..|s| - 1], n);
      if n <= |s| - 1 { assert forall i | n <= i < |s| - 1 :: s[..|s| - 1][i] == s[i]; }
    }
  }

  lemma {:induction false} LinesConcat(a: seq<Byte>, b: seq<Byte>)
    ensures Lines(a + b) == if Lines(b) > 0 then |a| + Lines(b) else Lines(a)
  {
    if b == [] {
      assert a + b == a;
    } else if b[|b| - 1] != NEWLINE {
      LinesConcat(a, b[..|b| - 1]);
      assert (a + b)[..|a + b| - 1] == a + b[..|b| - 1];
    }
  }

  lemma {:induction false} LinesDrop(s: seq<Byte>, m: nat)
    requires m <= |s|
    ensures Lines(s[m..]) == if Lines(s) > m then Lines(s) - m else 0
  {
    LinesConcat(s[..m], s[m..]);
    assert s == s[..m] + s[m..];
  }

  lemma WriteGated(s: Stream, data: seq<Byte>)
    requires LineGated(s)
    ensures LineGated(Write(s, data, false))
  {
    LinesConcat(s.unread, data);
  }

  /** A read keeps the gate, and one made while a line is ready never goes past it. */
  lemma ReadGated(s: Stream, n: nat)
    requires LineGated(s)
    ensures LineGated(Read(s, n).0)
    ensures s.ready > 0 ==> |Read(s, n).1| <= Lines(s.unread)
  {
    LinesDrop(s.unread, Readable(s, n));
  }

  /** A removal keeps the gate exactly when the byte removed is not a newline. */
  lemma RemoveGatedIff(s: Stream)
    requires LineGated(s) && s.unread != []
    ensures LineGated(Remove(s).value) <==> s.unread[|s.unread| - 1] != NEWLINE
  {
  }

  /** A non-blocking write keeps the gate exactly when it writes nothing or ends a line. */
  lemma NonblockGatedIff(s: Stream, data: seq<Byte>)
    requires LineGated(s)
    ensures LineGated(Write(s, data, true)) <==> data == [] || data[|data| - 1] == NEWLINE
  {
    LinesConcat(s.unread, data);
    if data == [] { assert s.unread + data == s.unread; }
  }

  /** A newline removed, and half a line written without blocking: the gate is open where
      there is no line. */
  lemma GateExample()
    ensures !LineGated(Run([DoWrite([NEWLINE], false), DoRemove]).0)
    ensures !LineGated(Run([DoWrite([0], true)]).0)
  {
    var a, b := DoWrite([NEWLINE], false), DoWrite([0], true);
    assert [a, DoRemove][..1] == [a] && [a][..0] == [] && [b][..0] == [];
    assert Run([a]).0.unread == [NEWLINE];
    assert Run([b]).0.unread == [0];
  }

  predicate KeepsLines(ops: seq<Op>)
    decreases |ops|
  {
    ops == [] ||
    var prev := ops[..|ops| - 1];
    var s := Run(prev).0;
    && KeepsLines(prev)
    && match ops[|ops| - 1]
       case DoWrite(_, nonblock) => !nonblock
       case DoRemove => s.unread == [] || s.unread[|s.unread| - 1] != NEWLINE
       case _ => true
  }

  /** On a stream never written without blocking, and from which no newline is removed,
      the gate always stands at the last unread newline. */
  lemma {:induction false} RunGated(ops: seq<Op>)
    requires KeepsLines(ops)
    ensures LineGated(Run(ops).0)
    decreases |ops|
  {
    if ops != [] {
      var prev := ops[..|ops| - 1];
      RunGated(prev);
      var s := Run(prev).0;
      match ops[|ops| - 1] {
        case DoWrite(data, _) => WriteGated(s, data);
        case DoRead(n) => ReadGated(s, n);
        case DoFlush =>
        case DoRemove => if s.unread != [] { RemoveGatedIff(s); }
      }
    }
  }
}
