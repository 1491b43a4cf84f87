/** The connect/accept rendezvous of kernel/net/socket/unix.c as a state machine: any
    number of clients and the one acceptor of a listening socket, interleaved step by step.

    Every step is one access to shared memory.  queue_push and queue_pop are atomic, as
    the lock of kernel/yanix/ds/queue.c is meant to make them; module `Queue` proves
    them against the sequence used here.  kmalloc and pipe_create return any address that
    is not in use, so a freed record may be handed out again.

    The owner of a record or a pipe, the turn of a client and the two logs are history:
    no step takes a decision on them. */
module UnixSocket {

  import Q = Queue

  type Address = nat
  type Pipe = nat
  type ClientId = nat

  /** struct accept_conn, and the client that allocated it. */
  datatype Record = Record(lock: bool, clientPipe: Pipe, serverPipe: Pipe, owner: ClientId)

  datatype Client =
    | Idle
    | Refused                                             // connect returned -1
    | Filled(rec: Address)                                // record filled in, not yet pushed
    | Spinning(rec: Address, turn: nat)                   // while (accept_conn->lock)
    | Released(rec: Address, turn: nat)                   // the lock was seen open
    | CopiedSend(rec: Address, turn: nat, send: Pipe)
    | CopiedBoth(rec: Address, turn: nat, send: Pipe, recv: Pipe)
    | Connected(turn: nat, send: Pipe, recv: Pipe)        // record freed, connect returned 0
  {
    predicate HasRecord() { Filled? || Spinning? || Released? || CopiedSend? || CopiedBoth? }
    predicate HasTurn() { Spinning? || Released? || CopiedSend? || CopiedBoth? || Connected? }
  }

  datatype Acceptor =
    | Waiting                                             // while (!q->size)
    | Ready                                               // a record was seen in the queue
    | Popped(rec: Address)
    | TookSend(rec: Address, send: Pipe)
    | TookBoth(rec: Address, send: Pipe, recv: Pipe)
  {
    predicate Holds() { Popped? || TookSend? || TookBoth? }
  }

  /** The pipes of one end of a connection. */
  datatype Conn = Conn(send: Pipe, recv: Pipe)

  datatype Ticket = Ticket(client: ClientId, clientPipe: Pipe, serverPipe: Pipe)

  datatype Side = ClientSide(client: ClientId) | ServerSide(client: ClientId)

  datatype State = State(
    listening: bool,
    capacity: nat,
    queue: seq<Address>,
    records: map<Address, Record>,
    pipes: map<Pipe, Side>,
    clients: map<ClientId, Client>,
    acceptor: Acceptor,
    pushed: seq<Ticket>,
    accepted: seq<Conn>)

  predicate Init(s: State) {
    && !s.listening && s.queue == [] && s.records == map[] && s.pipes == map[]
    && s.acceptor == Waiting && s.pushed == [] && s.accepted == []
    && forall c | c in s.clients :: s.clients[c] == Idle
  }

  datatype Action =
    | Listen
    | Refuse(c: ClientId)
    | Begin(c: ClientId, rec: Address, clientPipe: Pipe, serverPipe: Pipe)
    | Push(c: ClientId)
    | SeeLockOpen(c: ClientId)
    | CopySend(c: ClientId)
    | CopyRecv(c: ClientId)
    | FreeRecord(c: ClientId)
    | SeeQueue
    | Pop
    | TakeSend
    | TakeRecv
    | OpenLock

  /** The steps of clients; the others are those of the listening socket. */
  predicate ByClient(a: Action) {
    a.Refuse? || a.Begin? || a.Push? || a.SeeLockOpen? || a.CopySend? || a.CopyRecv? || a.FreeRecord?
  }

  /** When a step can be taken.  Nothing here asks whether the memory the step reads is
      still allocated: that it is, is proved. */
  predicate Enabled(s: State, a: Action) {
    match a
    case Listen => !s.listening
    case Refuse(c) => c in s.clients && s.clients[c].Idle? && !s.listening
    case Begin(c, r, p, q) =>
      && c in s.clients && s.clients[c].Idle? && s.listening
      && r !in s.records && p !in s.pipes && q !in s.pipes && p != q
    case Push(c) => c in s.clients && s.clients[c].Filled?
    case SeeLockOpen(c) =>
      && c in s.clients && s.clients[c].Spinning?
      && (s.clients[c].rec in s.records ==> !s.records[s.clients[c].rec].lock)
    case CopySend(c) => c in s.clients && s.clients[c].Released?
    case CopyRecv(c) => c in s.clients && s.clients[c].CopiedSend?
    case FreeRecord(c) => c in s.clients && s.clients[c].CopiedBoth?
    case SeeQueue => s.acceptor.Waiting? && |s.queue| > 0
    case Pop => s.acceptor.Ready?
    case TakeSend => s.acceptor.Popped?
    case TakeRecv => s.acceptor.TookSend?
    case OpenLock => s.acceptor.TookBoth?
  }

  /** The record a step reads or writes, if any. */
  function Touches(s: State, a: Action): set<Address>
    requires Enabled(s, a)
  {
    match a
    case Push(c) => {s.clients[c].rec}
    case SeeLockOpen(c) => {s.clients[c].rec}
    case CopySend(c) => {s.clients[c].rec}
    case CopyRecv(c) => {s.clients[c].rec}
    case FreeRecord(c) => {s.clients[c].rec}
    case TakeSend => {s.acceptor.rec}
    case TakeRecv => {s.acceptor.rec}
    case OpenLock => {s.acceptor.rec}
    case _ => {}
  }

  /** A step that touches a freed record, or pops from an empty queue, has no meaning. */
  predicate Safe(s: State, a: Action)
    requires Enabled(s, a)
  {
    Touches(s, a) <= s.records.Keys && (a.Pop? ==> |s.queue| > 0)
  }

  function SetClient(s: State, c: ClientId, x: Client): State {
    s.(clients := s.clients[c := x])
  }

  function Apply(s: State, a: Action): State
    requires Enabled(s, a) && Safe(s, a)
  {
    match a
    case Listen => s.(listening := true)
    case Refuse(c) => SetClient(s, c, Refused)
    case Begin(c, r, p, q) =>
      SetClient(s, c, Filled(r)).(
      records := s.records[r := Record(true, p, q, c)],
      pipes := s.pipes[p := ClientSide(c)][q := ServerSide(c)])
    case Push(c) =>
      var r := s.clients[c].rec;
      var x := s.records[r];
      if |s.queue| == s.capacity then
        SetClient(s, c, Refused).(
        pipes := s.pipes - {x.clientPipe, x.serverPipe},
        records := s.records - {r})
      else
        SetClient(s, c, Spinning(r, |s.pushed|)).(
        queue := s.queue + [r],
        pushed := s.pushed + [Ticket(c, x.clientPipe, x.serverPipe)])
    case SeeLockOpen(c) => SetClient(s, c, Released(s.clients[c].rec, s.clients[c].turn))
    case CopySend(c) =>
      var x := s.clients[c];
      SetClient(s, c, CopiedSend(x.rec, x.turn, s.records[x.rec].serverPipe))
    case CopyRecv(c) =>
      var x := s.clients[c];
      SetClient(s, c, CopiedBoth(x.rec, x.turn, x.send, s.records[x.rec].clientPipe))
    case FreeRecord(c) =>
      var x := s.clients[c];
      SetClient(s, c, Connected(x.turn, x.send, x.recv)).(records := s.records - {x.rec})
    case SeeQueue => s.(acceptor := Ready)
    case Pop => s.(acceptor := Popped(s.queue[0]), queue := s.queue[1..])
    case TakeSend => s.(acceptor := TookSend(s.acceptor.rec, s.records[s.acceptor.rec].clientPipe))
    case TakeRecv =>
      s.(acceptor := TookBoth(s.acceptor.rec, s.acceptor.send, s.records[s.acceptor.rec].serverPipe))
    case OpenLock =>
      var r := s.acceptor.rec;
      s.(acceptor := Waiting,
      records := s.records[r := s.records[r].(lock := false)],
      accepted := s.accepted + [Conn(s.acceptor.send, s.acceptor.recv)])
  }

  // ---------------------------------------------------------------- invariant

  function Taken(s: State): nat { |s.accepted| + if s.acceptor.Holds() then 1 else 0 }

  /** What one client's state says about the rest. */
  predicate ClientOk(s: State, c: ClientId)
    requires c in s.clients
  {
    var x := s.clients[c];
    && (x.HasRecord() ==> x.rec in s.records && s.records[x.rec].owner == c)
    && (x.Filled? ==>
          var r := s.records[x.rec];
          r.lock && PipesOf(s, c, r.clientPipe, r.serverPipe))
    && (x.HasTurn() ==> x.turn < |s.pushed| && s.pushed[x.turn].client == c)
    && (x.HasRecord() && x.HasTurn() ==>
          var r, t := s.records[x.rec], s.pushed[x.turn];
          && r.clientPipe == t.clientPipe && r.serverPipe == t.serverPipe
          && (r.lock <==> x.turn >= |s.accepted|))
    && (x.HasTurn() && !x.Spinning? ==> x.turn < |s.accepted|)
    && (x.CopiedSend? || x.CopiedBoth? || x.Connected? ==> x.send == s.pushed[x.turn].serverPipe)
    && (x.CopiedBoth? || x.Connected? ==> x.recv == s.pushed[x.turn].clientPipe)
  }

  predicate PipesOf(s: State, c: ClientId, clientPipe: Pipe, serverPipe: Pipe) {
    && clientPipe in s.pipes && s.pipes[clientPipe] == ClientSide(c)
    && serverPipe in s.pipes && s.pipes[serverPipe] == ServerSide(c)
  }

  /** Every push belongs to the client whose turn it is, and to nobody else. */
  predicate PushOk(s: State, i: nat)
    requires i < |s.pushed|
  {
    var t := s.pushed[i];
    && t.client in s.clients && s.clients[t.client].HasTurn() && s.clients[t.client].turn == i
    && PipesOf(s, t.client, t.clientPipe, t.serverPipe)
    && (i < |s.accepted| ==> s.accepted[i] == Conn(t.clientPipe, t.serverPipe))
    && (|s.accepted| <= i < Taken(s) ==> s.clients[t.client] == Spinning(s.acceptor.rec, i))
    && (Taken(s) <= i && i - Taken(s) < |s.queue| ==> s.clients[t.client] == Spinning(s.queue[i - Taken(s)], i))
  }

  predicate RecordOk(s: State, r: Address)
    requires r in s.records
  {
    var c := s.records[r].owner;
    c in s.clients && s.clients[c].HasRecord() && s.clients[c].rec == r
  }

  predicate AcceptorOk(s: State) {
    && |s.pushed| == Taken(s) + |s.queue|
    && |s.queue| <= s.capacity
    && (s.acceptor.Ready? ==> |s.queue| > 0)
    && (s.acceptor.Holds() ==>
          var t := s.pushed[|s.accepted|];
          && (s.acceptor.TookSend? || s.acceptor.TookBoth? ==> s.acceptor.send == t.clientPipe)
          && (s.acceptor.TookBoth? ==> s.acceptor.recv == t.serverPipe))
  }

  predicate Inv(s: State) {
    && (forall c | c in s.clients :: ClientOk(s, c))
    && (forall i: nat | i < |s.pushed| :: PushOk(s, i))
    && (forall r | r in s.records :: RecordOk(s, r))
    && AcceptorOk(s)
  }

  lemma InitInv(s: State)
    requires Init(s)
    ensures Inv(s)
  {
  }

  /** No step of any party reaches a freed record, or finds the queue empty after it saw a
      record in it. */
  lemma InvSafe(s: State, a: Action)
    requires Inv(s) && Enabled(s, a)
    ensures Safe(s, a)
  {
    match a {
      case Push(c) => assert ClientOk(s, c);
      case SeeLockOpen(c) => assert ClientOk(s, c);
      case CopySend(c) => assert ClientOk(s, c);
      case CopyRecv(c) => assert ClientOk(s, c);
      case FreeRecord(c) => assert ClientOk(s, c);
      case _ =>
        if s.acceptor.Holds() {
          assert PushOk(s, |s.accepted|);
          assert ClientOk(s, s.pushed[|s.accepted|].client);
        }
    }
  }

  // ---------------------------------------------------------------- preservation

  /** The acceptor's next ticket, and the client it belongs to. */
  lemma HeldClient(s: State)
    requires Inv(s) && s.acceptor.Holds()
    ensures |s.accepted| < |s.pushed|
    ensures var t := s.pushed[|s.accepted|];
            t.client in s.clients && s.clients[t.client] == Spinning(s.acceptor.rec, |s.accepted|) &&
            ClientOk(s, t.client) && PushOk(s, |s.accepted|)
  {
    assert PushOk(s, |s.accepted|);
  }

  /** A client after a step of its own, ... */
  lemma ActorKept(s: State, a: Action)
    requires Enabled(s, a) && Safe(s, a) && ByClient(a) && ClientOk(s, a.c) && AcceptorOk(s)
    ensures ClientOk(Apply(s, a), a.c)
  {
  }

  /** ... of another client, ... */
  lemma BystanderKept(s: State, a: Action, d: ClientId)
    requires Enabled(s, a) && Safe(s, a) && ByClient(a) && d in s.clients && d != a.c
    requires ClientOk(s, a.c) && ClientOk(s, d)
    ensures ClientOk(Apply(s, a), d)
  {
  }

  /** ... and of the acceptor. */
  lemma ServedKept(s: State, a: Action, d: ClientId)
    requires Inv(s) && Enabled(s, a) && Safe(s, a) && !ByClient(a) && d in s.clients
    ensures ClientOk(Apply(s, a), d)
  {
    assert ClientOk(s, d);
    if a.OpenLock? { HeldClient(s); }
  }

  /** The pushes after one more, ... */
  lemma PushKeptByPush(s: State, c: ClientId, i: nat)
    requires Enabled(s, Push(c)) && Safe(s, Push(c)) && i < |Apply(s, Push(c)).pushed|
    requires ClientOk(s, c) && AcceptorOk(s) && (i < |s.pushed| ==> PushOk(s, i))
    ensures PushOk(Apply(s, Push(c)), i)
  {
  }

  /** ... after another step of a client, ... */
  lemma PushKeptByClient(s: State, a: Action, i: nat)
    requires Enabled(s, a) && Safe(s, a) && ByClient(a) && !a.Push? && ClientOk(s, a.c)
    requires i < |s.pushed| && PushOk(s, i)
    ensures PushOk(Apply(s, a), i)
  {
  }

  /** ... and of the acceptor. */
  lemma PushKeptByAcceptor(s: State, a: Action, i: nat)
    requires Enabled(s, a) && Safe(s, a) && !ByClient(a) && i < |s.pushed| && PushOk(s, i) && AcceptorOk(s)
    ensures PushOk(Apply(s, a), i)
  {
  }

  lemma RecordKept(s: State, a: Action, r: Address)
    requires Enabled(s, a) && Safe(s, a) && r in Apply(s, a).records && (r in s.records ==> RecordOk(s, r))
    ensures RecordOk(Apply(s, a), r)
  {
  }

  lemma AcceptorKept(s: State, a: Action)
    requires Inv(s) && Enabled(s, a) && Safe(s, a)
    ensures AcceptorOk(Apply(s, a))
  {
    if s.acceptor.Holds() { HeldClient(s); }
  }

  lemma StepInv(s: State, a: Action)
    requires Inv(s) && Enabled(s, a)
    ensures Safe(s, a) && Inv(Apply(s, a))
  {
    InvSafe(s, a);
    var s' := Apply(s, a);
    forall d | d in s'.clients ensures ClientOk(s', d) {
      if !ByClient(a) { ServedKept(s, a, d); } else if d == a.c { ActorKept(s, a); } else { BystanderKept(s, a, d); }
    }
    forall i: nat | i < |s'.pushed| ensures PushOk(s', i) {
      if a.Push? {
        PushKeptByPush(s, a.c, i);
      } else if ByClient(a) {
        PushKeptByClient(s, a, i);
      } else {
        PushKeptByAcceptor(s, a, i);
      }
    }
    forall r | r in s'.records ensures RecordOk(s', r) { RecordKept(s, a, r); }
    AcceptorKept(s, a);
  }

  // ---------------------------------------------------------------- every interleaving

  /** `s` is reached from `s0` by the steps `steps`, each enabled when it is taken. */
  ghost predicate Reaches(s0: State, steps: seq<Action>, s: State)
    decreases |steps|
  {
    if steps == [] then s == s0
    else
      var k := |steps| - 1;
      exists m :: Reaches(s0, steps[..k], m) && Enabled(m, steps[k]) && Safe(m, steps[k]) && s == Apply(m, steps[k])
  }

  ghost predicate Reachable(s: State) {
    exists s0, steps :: Init(s0) && Reaches(s0, steps, s)
  }

  lemma {:induction false} ReachesInv(s0: State, steps: seq<Action>, s: State)
    requires Init(s0) && Reaches(s0, steps, s)
    ensures Inv(s)
    decreases |steps|
  {
    if steps == [] {
      InitInv(s0);
    } else {
      var k := |steps| - 1;
      var m :| Reaches(s0, steps[..k], m) && Enabled(m, steps[k]) && Safe(m, steps[k]) && s == Apply(m, steps[k]);
      ReachesInv(s0, steps[..k], m);
      StepInv(m, steps[k]);
    }
  }

  /** In every interleaving, whatever step is taken next touches only live records. */
  lemma NoUseAfterFree(s: State, a: Action)
    requires Reachable(s) && Enabled(s, a)
    ensures Safe(s, a)
  {
    var s0, steps :| Init(s0) && Reaches(s0, steps, s);
    ReachesInv(s0, steps, s);
    InvSafe(s, a);
  }

  /** A client leaves its spin only after exactly one accept took its record, and the two
      ends are then crossed: each sends into the pipe the other receives from. */
  lemma ConnectedEndsMatch(s: State, c: ClientId)
    requires Reachable(s) && c in s.clients && s.clients[c].Connected?
    ensures exists i: nat :: i < |s.accepted| && Matches(s, c, i)
    ensures forall i: nat, j: nat | Matches(s, c, i) && Matches(s, c, j) :: i == j
  {
    var s0, steps :| Init(s0) && Reaches(s0, steps, s);
    ReachesInv(s0, steps, s);
    var x := s.clients[c];
    assert ClientOk(s, c);
    assert PushOk(s, x.turn);
    assert Matches(s, c, x.turn);
    forall i: nat, j: nat | Matches(s, c, i) && Matches(s, c, j) ensures i == j {
      if i != j { PipesDistinct(s, i, j); }
    }
  }

  predicate Matches(s: State, c: ClientId, i: nat) {
    && i < |s.accepted| && i < |s.pushed| && c in s.clients && s.clients[c].Connected?
    && s.accepted[i].recv == s.clients[c].send && s.accepted[i].send == s.clients[c].recv
  }

  predicate Disjoint(a: Conn, b: Conn) {
    a.send != b.send && a.send != b.recv && a.recv != b.send && a.recv != b.recv
  }

  lemma PipesDistinct(s: State, i: nat, j: nat)
    requires Inv(s) && i < |s.accepted| && j < |s.accepted| && i != j
    ensures Disjoint(s.accepted[i], s.accepted[j])
  {
    assert PushOk(s, i) && PushOk(s, j);
  }

  /** No pipe belongs to two connections, nor to both ends of one. */
  lemma NoSharedPipes(s: State, i: nat, j: nat)
    requires Reachable(s) && i < |s.accepted| && j < |s.accepted|
    ensures s.accepted[i].send != s.accepted[i].recv
    ensures i != j ==> Disjoint(s.accepted[i], s.accepted[j])
  {
    var s0, steps :| Init(s0) && Reaches(s0, steps, s);
    ReachesInv(s0, steps, s);
    assert PushOk(s, i);
    if i != j { PipesDistinct(s, i, j); }
  }

  /** Records are accepted in the order they were pushed, none twice and none skipped;
      what has not been accepted is with the acceptor or, in order, in the queue. */
  lemma FirstInFirstOut(s: State)
    requires Reachable(s)
    ensures |s.accepted| <= Taken(s) <= |s.pushed| == Taken(s) + |s.queue|
    ensures forall i: nat | i < |s.accepted| :: AcceptedInTurn(s, i)
    ensures forall j: nat | j < |s.queue| :: QueuedInTurn(s, j)
  {
    var s0, steps :| Init(s0) && Reaches(s0, steps, s);
    ReachesInv(s0, steps, s);
    forall i: nat | i < |s.accepted| ensures AcceptedInTurn(s, i) { AcceptedTurn(s, i); }
    forall j: nat | j < |s.queue| ensures QueuedInTurn(s, j) { QueuedTurn(s, j, Taken(s) + j); }
  }

  lemma AcceptedTurn(s: State, i: nat)
    requires Inv(s) && i < |s.accepted|
    ensures AcceptedInTurn(s, i)
  {
    assert PushOk(s, i);
  }

  lemma QueuedTurn(s: State, j: nat, i: nat)
    requires Inv(s) && j < |s.queue| && i == Taken(s) + j
    ensures QueuedInTurn(s, j)
  {
    assert PushOk(s, i);
  }

  predicate AcceptedInTurn(s: State, i: nat) {
    i < |s.accepted| && i < |s.pushed| && s.accepted[i] == Conn(s.pushed[i].clientPipe, s.pushed[i].serverPipe)
  }

  predicate QueuedInTurn(s: State, j: nat) {
    && j < |s.queue| && Taken(s) + j < |s.pushed|
    && var c := s.pushed[Taken(s) + j].client;
    c in s.clients && s.clients[c] == Spinning(s.queue[j], Taken(s) + j)
  }

  /** A queued record is locked, and so is the one the acceptor holds. */
  lemma QueuedIsLocked(s: State, j: nat)
    requires Inv(s) && j < |s.queue|
    ensures s.queue[j] in s.records && s.records[s.queue[j]].lock
  {
    assert PushOk(s, Taken(s) + j);
    assert ClientOk(s, s.pushed[Taken(s) + j].client);
  }

  lemma HeldIsLocked(s: State)
    requires Inv(s) && s.acceptor.Holds()
    ensures s.acceptor.rec in s.records && s.records[s.acceptor.rec].lock
  {
    assert PushOk(s, |s.accepted|);
    assert ClientOk(s, s.pushed[|s.accepted|].client);
  }

  /** What a push does, in every reachable state: a client is refused, and its record and
      pipes given back, exactly when the queue holds as many records as it can; otherwise it
      spins and its record is the last in the queue, behind those that were there. */
  lemma PushResult(s: State, c: ClientId)
    requires Reachable(s) && Enabled(s, Push(c))
    ensures Safe(s, Push(c))
    ensures var s', rec := Apply(s, Push(c)), s.clients[c].rec;
            && s'.queue == Q.Pushed(s.queue, s.capacity, rec).0
            && s'.clients.Keys == s.clients.Keys
            && (forall d | d in s.clients && d != c :: s'.clients[d] == s.clients[d])
            && (s'.clients[c].Refused? <==> |s.queue| == s.capacity)
            && (s'.clients[c].Refused? <==> Q.Pushed(s.queue, s.capacity, rec).1 == -1)
            && if |s.queue| < s.capacity then
                 && s'.clients[c] == Spinning(rec, |s.pushed|) && s'.queue == s.queue + [rec]
                 && s'.records == s.records && s'.pipes == s.pipes
               else
                 && s'.queue == s.queue && s'.records == s.records - {rec}
                 && s'.pipes == s.pipes - {s.records[rec].clientPipe, s.records[rec].serverPipe}
  {
    NoUseAfterFree(s, Push(c));
    var s0, steps :| Init(s0) && Reaches(s0, steps, s);
    ReachesInv(s0, steps, s);
  }

  /** A record is freed by its client only when the acceptor is done with it and it is not
      in the queue. */
  lemma FreedAfterLastAccess(s: State, c: ClientId)
    requires Reachable(s) && Enabled(s, FreeRecord(c))
    ensures s.clients[c].rec !in s.queue
    ensures s.acceptor.Holds() ==> s.acceptor.rec != s.clients[c].rec
    ensures s.clients[c].turn < |s.accepted|
  {
    var s0, steps :| Init(s0) && Reaches(s0, steps, s);
    ReachesInv(s0, steps, s);
    assert ClientOk(s, c);
    forall j | 0 <= j < |s.queue| ensures s.queue[j] != s.clients[c].rec { QueuedIsLocked(s, j); }
    if s.acceptor.Holds() { HeldIsLocked(s); }
  }

  lemma SpinningMeansWork(s: State, c: ClientId)
    requires Inv(s) && c in s.clients && s.clients[c].Spinning?
    ensures s.clients[c].rec in s.records
    ensures s.records[s.clients[c].rec].lock ==> s.acceptor.Holds() || |s.queue| > 0
  {
    assert ClientOk(s, c);
  }

  /** No client is left spinning: while one is, the acceptor has a step to take or the
      client itself does. */
  lemma NoClientStuck(s: State, c: ClientId)
    requires Reachable(s) && c in s.clients && s.clients[c].Spinning?
    ensures exists a :: Enabled(s, a) && (a == SeeLockOpen(c) || a in {SeeQueue, Pop, TakeSend, TakeRecv, OpenLock})
  {
    var s0, steps :| Init(s0) && Reaches(s0, steps, s);
    ReachesInv(s0, steps, s);
    SpinningMeansWork(s, c);
    var a := if !s.records[s.clients[c].rec].lock then SeeLockOpen(c)
             else match s.acceptor
               case Waiting => SeeQueue
               case Ready => Pop
               case Popped(_) => TakeSend
               case TookSend(_, _) => TakeRecv
               case TookBoth(_, _, _) => OpenLock;
    assert Enabled(s, a);
  }

  // ---------------------------------------------------------------- bounded waiting

  predicate ByAcceptor(a: Action) { a in {SeeQueue, Pop, TakeSend, TakeRecv, OpenLock} }

  /** The steps the acceptor has taken for the record it is at. */
  function Stage(x: Acceptor): nat {
    match x
    case Waiting => 0
    case Ready => 1
    case Popped(_) => 2
    case TookSend(_, _) => 3
    case TookBoth(_, _, _) => 4
  }

  /** The steps the acceptor takes before the lock of client `c` is open: five for every
      record up to and with its own, less those already taken. */
  function Ahead(s: State, c: ClientId): int
    requires c in s.clients && s.clients[c].HasTurn()
  {
    5 * (s.clients[c].turn + 1 - |s.accepted|) - Stage(s.acceptor)
  }

  /** Nothing is ahead of a client exactly when its lock is open, and what is ahead of it is
      bounded by the queue; while something is, the acceptor has a step to take. */
  lemma AheadMeans(s: State, c: ClientId)
    requires Inv(s) && c in s.clients && s.clients[c].Spinning?
    ensures Ahead(s, c) <= 5 * (|s.queue| + 1)
    ensures Ahead(s, c) <= 0 <==> Enabled(s, SeeLockOpen(c))
    ensures Ahead(s, c) > 0 ==> exists a :: ByAcceptor(a) && Enabled(s, a)
  {
    assert ClientOk(s, c);
    var x := s.clients[c];
    if s.acceptor.Holds() { assert x.turn >= |s.accepted| || Ahead(s, c) <= 0; }
    if Ahead(s, c) > 0 {
      SpinningMeansWork(s, c);
      var a := match s.acceptor
               case Waiting => SeeQueue
               case Ready => Pop
               case Popped(_) => TakeSend
               case TookSend(_, _) => TakeRecv
               case TookBoth(_, _, _) => OpenLock;
      assert ByAcceptor(a) && Enabled(s, a);
    }
  }

  /** Every step of the acceptor brings a spinning client nearer by one, and no step of
      anybody else sends it back. */
  lemma AheadStep(s: State, a: Action, c: ClientId)
    requires Enabled(s, a) && Safe(s, a) && a != SeeLockOpen(c)
    requires c in s.clients && s.clients[c].Spinning?
    ensures c in Apply(s, a).clients && Apply(s, a).clients[c] == s.clients[c]
    ensures Ahead(Apply(s, a), c) == Ahead(s, c) - if ByAcceptor(a) then 1 else 0
  {
  }

  /** `steps` can be taken one after the other. */
  predicate Legal(s: State, steps: seq<Action>)
    decreases |steps|
  {
    steps == [] || (Enabled(s, steps[0]) && Safe(s, steps[0]) && Legal(Apply(s, steps[0]), steps[1..]))
  }

  function After(s: State, steps: seq<Action>): State
    requires Legal(s, steps)
    decreases |steps|
  {
    if steps == [] then s else After(Apply(s, steps[0]), steps[1..])
  }

  function AcceptorCount(steps: seq<Action>): nat {
    if steps == [] then 0 else (if ByAcceptor(steps[0]) then 1 else 0) + AcceptorCount(steps[1..])
  }

  lemma {:induction false} AheadInRuns(s: State, steps: seq<Action>, c: ClientId)
    requires Inv(s) && Legal(s, steps) && SeeLockOpen(c) !in steps
    requires c in s.clients && s.clients[c].Spinning?
    ensures var s' := After(s, steps);
            && Inv(s') && c in s'.clients && s'.clients[c] == s.clients[c]
            && Ahead(s', c) == Ahead(s, c) - AcceptorCount(steps)
    decreases |steps|
  {
    if steps != [] {
      StepInv(s, steps[0]);
      AheadStep(s, steps[0], c);
      AheadInRuns(Apply(s, steps[0]), steps[1..], c);
    }
  }

  /** Bounded waiting: whatever the other clients do, a spinning client sees its lock open
      after the acceptor took five steps for each record before its own and for its own. */
  lemma BoundedWait(s: State, steps: seq<Action>, c: ClientId)
    requires Reachable(s) && Legal(s, steps) && SeeLockOpen(c) !in steps
    requires c in s.clients && s.clients[c].Spinning?
    ensures Ahead(s, c) <= 5 * (|s.queue| + 1)
    ensures AcceptorCount(steps) >= Ahead(s, c) ==> Enabled(After(s, steps), SeeLockOpen(c))
  {
    var s0, steps0 :| Init(s0) && Reaches(s0, steps0, s);
    ReachesInv(s0, steps0, s);
    AheadMeans(s, c);
    AheadInRuns(s, steps, c);
    AheadMeans(After(s, steps), c);
  }

  // ---------------------------------------------------------------- every queued client connects

  lemma {:induction false} AfterConcat(s: State, a: seq<Action>, b: seq<Action>)
    requires Legal(s, a) && Legal(After(s, a), b)
    ensures Legal(s, a + b) && After(s, a + b) == After(After(s, a), b)
    decreases |a|
  {
    if a == [] {
      assert a + b == b;
    } else {
      AfterConcat(Apply(s, a[0]), a[1..], b);
      assert (a + b)[1..] == a[1..] + b;
    }
  }

  /** The acceptor alone opens the lock of a spinning client, in as many steps as are ahead
      of it. */
  lemma {:induction false} AcceptorOpens(s: State, c: ClientId) returns (steps: seq<Action>)
    requires Inv(s) && c in s.clients && s.clients[c].Spinning?
    ensures Legal(s, steps) && (forall a | a in steps :: ByAcceptor(a)) && |steps| <= 5 * (|s.queue| + 1)
    ensures var s' := After(s, steps);
            Inv(s') && c in s'.clients && s'.clients[c] == s.clients[c] && Enabled(s', SeeLockOpen(c))
    ensures |steps| == if Ahead(s, c) > 0 then Ahead(s, c) else 0
    decreases Ahead(s, c)
  {
    AheadMeans(s, c);
    if Ahead(s, c) <= 0 {
      steps := [];
    } else {
      var a :| ByAcceptor(a) && Enabled(s, a);
      StepInv(s, a);
      AheadStep(s, a, c);
      var rest := AcceptorOpens(Apply(s, a), c);
      steps := [a] + rest;
    }
  }

  /** One step and then a run. */
  lemma StepFirst(s: State, a: Action, rest: seq<Action>)
    requires Enabled(s, a) && Safe(s, a) && Legal(Apply(s, a), rest)
    ensures Legal(s, [a] + rest) && After(s, [a] + rest) == After(Apply(s, a), rest)
  {
    assert ([a] + rest)[1..] == rest;
  }

  /** The next step of a client whose lock is open. */
  function OwnStep(x: Client, c: ClientId): Action {
    match x
    case Spinning(_, _) => SeeLockOpen(c)
    case Released(_, _) => CopySend(c)
    case CopiedSend(_, _, _) => CopyRecv(c)
    case _ => FreeRecord(c)
  }

  function StepsLeft(x: Client): nat {
    match x
    case Spinning(_, _) => 4
    case Released(_, _) => 3
    case CopiedSend(_, _, _) => 2
    case CopiedBoth(_, _, _, _) => 1
    case _ => 0
  }

  lemma OwnStepMoves(s: State, c: ClientId)
    requires c in s.clients && StepsLeft(s.clients[c]) > 0
    requires Enabled(s, OwnStep(s.clients[c], c)) && Safe(s, OwnStep(s.clients[c], c))
    ensures var s' := Apply(s, OwnStep(s.clients[c], c));
            && c in s'.clients && StepsLeft(s'.clients[c]) == StepsLeft(s.clients[c]) - 1
            && (StepsLeft(s.clients[c]) == 1 ==> s'.clients[c].Connected?)
            && (StepsLeft(s.clients[c]) > 1 ==> Enabled(s', OwnStep(s'.clients[c], c)))
  {
  }

  /** A client that finds its lock open takes four steps of its own to its connection. */
  lemma {:induction false} ClientFinishes(s: State, c: ClientId) returns (steps: seq<Action>)
    requires Inv(s) && c in s.clients && StepsLeft(s.clients[c]) > 0 && Enabled(s, OwnStep(s.clients[c], c))
    ensures Legal(s, steps) && |steps| == StepsLeft(s.clients[c])
    ensures var s' := After(s, steps); c in s'.clients && s'.clients[c].Connected?
    decreases StepsLeft(s.clients[c])
  {
    var a := OwnStep(s.clients[c], c);
    StepInv(s, a);
    OwnStepMoves(s, c);
    var rest := [];
    if StepsLeft(s.clients[c]) > 1 { rest := ClientFinishes(Apply(s, a), c); }
    StepFirst(s, a, rest);
    steps := [a] + rest;
  }

  /** From every reachable state in which a client spins, the acceptor and that client alone
      can bring it to a connection. */
  lemma SpinningCanConnect(s: State, c: ClientId) returns (steps: seq<Action>)
    requires Inv(s) && c in s.clients && s.clients[c].Spinning?
    ensures Legal(s, steps) && var s' := After(s, steps); c in s'.clients && s'.clients[c].Connected?
  {
    var first := AcceptorOpens(s, c);
    var second := ClientFinishes(After(s, first), c);
    AfterConcat(s, first, second);
    steps := first + second;
  }

  /** And so can a client that has filled in its record, when the queue is not full. */
  lemma FilledCanConnect(s: State, c: ClientId) returns (steps: seq<Action>)
    requires Reachable(s) && c in s.clients && s.clients[c].Filled? && |s.queue| < s.capacity
    ensures Legal(s, steps) && var s' := After(s, steps); c in s'.clients && s'.clients[c].Connected?
  {
    var s0, run :| Init(s0) && Reaches(s0, run, s);
    ReachesInv(s0, run, s);
    PushResult(s, c);
    StepInv(s, Push(c));
    var rest := SpinningCanConnect(Apply(s, Push(c)), c);
    steps := [Push(c)] + rest;
  }

  /** From the start: any client of a socket that can queue one record can get a connection,
      with any record and any two pipes. */
  lemma FirstConnection(s: State, c: ClientId, rec: Address, p: Pipe, q: Pipe) returns (steps: seq<Action>)
    requires Init(s) && s.capacity > 0 && c in s.clients && p != q
    ensures Legal(s, steps) && var s' := After(s, steps); c in s'.clients && s'.clients[c].Connected?
  {
    InitInv(s);
    assert Enabled(s, Listen) && Safe(s, Listen);
    StepInv(s, Listen);
    var s1 := Apply(s, Listen);
    StepInv(s1, Begin(c, rec, p, q));
    var s2 := Apply(s1, Begin(c, rec, p, q));
    StepInv(s2, Push(c));
    var rest := SpinningCanConnect(Apply(s2, Push(c)), c);
    StepFirst(s2, Push(c), rest);
    StepFirst(s1, Begin(c, rec, p, q), [Push(c)] + rest);
    StepFirst(s, Listen, [Begin(c, rec, p, q)] + ([Push(c)] + rest));
    steps := [Listen] + ([Begin(c, rec, p, q)] + ([Push(c)] + rest));
  }
}
