/** What the scheduler's rotation is worth while tasks come and go: in every run, with forks,
    waits, kills and resumes in between, a ready task gets the processor within as many
    dispatches as there are ready tasks, plus one for every task that joins meanwhile. */
module Fairness {
  import opened Lists
  import opened Sched

  // ---------------------------------------------------------------- the wait for a turn

  /** Where the next dispatch looks: at the cursor, or at the head when there is none. */
  function Place(s: seq<Ref>, cursor: Ref): nat { if cursor == 0 then 0 else IndexOf(s, cursor) }

  /** The number of dispatches after which task `t` runs, if the list stays as it is. */
  function Wait(s: seq<Ref>, cursor: Ref, t: Ref): int {
    var p, q := Place(s, cursor), IndexOf(s, t);
    if q >= p then q - p + 1 else |s| - p + q + 1
  }

  /** The cursor is behind the running task, or starts over, or has not moved off the head. */
  predicate Follows(s: seq<Ref>, cursor: Ref, running: Ref) {
    cursor == 0 || cursor == Successor(s, running) || (s != [] && cursor == running == s[0])
  }

  predicate ListOk(s: seq<Ref>, cursor: Ref) {
    NoDup(s) && 0 !in s && (cursor == 0 || cursor in s)
  }

  lemma {:induction false} IndexUnique(s: seq<Ref>, i: nat)
    requires NoDup(s) && i < |s|
    ensures IndexOf(s, s[i]) == i
  {
    if i > 0 {
      assert s[1..][i - 1] == s[i];
      IndexUnique(s[1..], i - 1);
    }
  }

  lemma WaitBounds(s: seq<Ref>, cursor: Ref, t: Ref)
    requires ListOk(s, cursor) && t in s
    ensures 1 <= Wait(s, cursor, t) <= |s|
  {
  }

  /** A dispatch brings every other task one turn nearer. */
  lemma DispatchWait(s: seq<Ref>, cursor: Ref, t: Ref)
    requires ListOk(s, cursor) && t in s && GetNext(s, cursor).0 != t
    ensures Wait(s, GetNext(s, cursor).1, t) == Wait(s, cursor, t) - 1
  {
    var p := Place(s, cursor);
    SuccessorAt(s, p);
    IndexUnique(s, p);
    if p + 1 < |s| { IndexUnique(s, p + 1); }
  }

  lemma {:induction false} IndexAppend(s: seq<Ref>, c: Ref, t: Ref)
    requires t in s
    ensures IndexOf(s + [c], t) == IndexOf(s, t)
  {
    if s[0] != t {
      assert (s + [c])[1..] == s[1..] + [c];
      IndexAppend(s[1..], c, t);
    }
  }

  /** A task that joins costs every other task at most one turn. */
  lemma JoinWait(s: seq<Ref>, cursor: Ref, c: Ref, t: Ref)
    requires ListOk(s, cursor) && t in s
    ensures Wait(s + [c], cursor, t) <= Wait(s, cursor, t) + 1
  {
    IndexAppend(s, c, t);
    if cursor != 0 { IndexAppend(s, c, cursor); }
  }

  lemma JoinFollows(s: seq<Ref>, cursor: Ref, running: Ref, c: Ref)
    requires NoDup(s + [c]) && NoDup(s) && running in s && Follows(s, cursor, running)
    ensures Follows(s + [c], cursor, running)
  {
    var i := IndexOf(s, running);
    SuccessorAt(s, i);
    SuccessorAt(s + [c], i);
  }

  lemma WithoutAt(s: seq<Ref>, k: nat, i: nat, w: seq<Ref>)
    requires k < |s| && i < |s| && i != k && w == s[..k] + s[k + 1..]
    ensures |w| == |s| - 1 && w[if i < k then i else i - 1] == s[i]
  {
  }

  /** The places after a task has left. */
  lemma IndexWithout(s: seq<Ref>, r: Ref, t: Ref)
    requires NoDup(s) && r in s && t in s && t != r
    ensures var i := IndexOf(s, t);
            IndexOf(Without(s, r), t) == if i < IndexOf(s, r) then i else i - 1
  {
    var w, i, k := Without(s, r), IndexOf(s, t), IndexOf(s, r);
    NoDupWithout(s, r);
    WithoutAt(s, k, i, w);
    IndexUnique(w, if i < k then i else i - 1);
  }

  lemma LeaveHead(s: seq<Ref>, cursor: Ref, t: Ref)
    requires ListOk(s, cursor) && t in s && t != s[0] && Follows(s, cursor, s[0])
    ensures Wait(s[1..], FirstOr(s[1..], 0), t) <= Wait(s, cursor, t)
  {
    SuccessorAt(s, 0);
    if |s| > 1 { IndexUnique(s, 1); }
    assert Place(s, cursor) <= 1;
    assert IndexOf(s, t) == IndexOf(s[1..], t) + 1;
  }

  lemma LeaveInner(s: seq<Ref>, cursor: Ref, r: Ref, t: Ref)
    requires ListOk(s, cursor) && r in s && t in s && t != r && Follows(s, cursor, r) && s[0] != r
    ensures Wait(Without(s, r), cursor, t) <= Wait(s, cursor, t)
  {
    var k := IndexOf(s, r);
    IndexWithout(s, r, t);
    NoDupWithout(s, r);
    SuccessorAt(s, k);
    if cursor != 0 {
      IndexUnique(s, k + 1);
      IndexWithout(s, r, cursor);
    }
  }

  /** A running task that leaves costs nobody a turn. */
  lemma LeaveWait(s: seq<Ref>, cursor: Ref, r: Ref, t: Ref)
    requires ListOk(s, cursor) && r in s && t in s && t != r && Follows(s, cursor, r)
    ensures Wait(Without(s, r), CursorAfterRemove(s, cursor, r), t) <= Wait(s, cursor, t)
  {
    if s[0] == r {
      LeaveHead(s, cursor, t);
      assert Without(s, r) == s[1..];
    } else {
      LeaveInner(s, cursor, r, t);
    }
  }

  lemma LeaveList(s: seq<Ref>, cursor: Ref, r: Ref)
    requires ListOk(s, cursor) && r in s && Follows(s, cursor, r)
    ensures ListOk(Without(s, r), CursorAfterRemove(s, cursor, r))
  {
    NoDupWithout(s, r);
    var k := IndexOf(s, r);
    SuccessorAt(s, k);
    if k + 1 < |s| { IndexUnique(s, k + 1); }
    if s[0] == r && s[1..] != [] { assert s[1..][0] in s; }
  }

  // ---------------------------------------------------------------- steps

  ghost predicate Fair(s: State) { Inv(s) && Follows(s.ready, s.cursor, s.running) }

  /** Steps that choose the next task to run. */
  predicate Dispatches(a: Action) { a.DoTick? || a.DoWait? || a.DoKill? }

  /** The number of tasks that a step puts on the ready list. */
  function Joins(s: State, a: Action): nat {
    match a
    case DoFork(_) => 1
    case DoResume(pid) => if FindPid(s.blocked, s.info, pid) != 0 then 1 else 0
    case DoKill => if WakesParent(s) then 1 else 0
    case _ => 0
  }

  lemma FairList(s: State)
    requires Inv(s)
    ensures ListOk(s.ready, s.cursor) && s.running in s.ready
  {
    NoNull(s);
  }

  /** The dispatch at the end of a tick, a wait or a kill. */
  lemma TickStep(s: State, t: Ref)
    requires ListOk(s.ready, s.cursor) && s.ready != []
    ensures Follows(Tick(s).ready, Tick(s).cursor, Tick(s).running)
    ensures t in s.ready && Tick(s).running != t ==>
              Wait(Tick(s).ready, Tick(s).cursor, t) == Wait(s.ready, s.cursor, t) - 1
  {
    if t in s.ready && Tick(s).running != t { DispatchWait(s.ready, s.cursor, t); }
  }

  lemma WaitStep(s: State, t: Ref)
    requires Fair(s) && Enabled(s, DoWait)
    ensures Fair(Apply(s, DoWait))
    ensures t in s.ready && t != s.running ==>
              var s' := Apply(s, DoWait);
              t in s'.ready && (s'.running == t || Wait(s'.ready, s'.cursor, t) < Wait(s.ready, s.cursor, t))
  {
    StepInv(s, DoWait);
    FairList(s);
    LeaveList(s.ready, s.cursor, s.running);
    NoDupWithout(s.ready, s.running);
    TickStep(BlockSelf(s), t);
    if t in s.ready && t != s.running { LeaveWait(s.ready, s.cursor, s.running, t); }
  }

  /** A list that a task may have joined. */
  lemma MayJoin(s: seq<Ref>, cursor: Ref, running: Ref, joined: bool, c: Ref, s1: seq<Ref>, t: Ref)
    requires ListOk(s, cursor) && running in s && Follows(s, cursor, running)
    requires joined ==> c != 0 && c !in s
    requires s1 == if joined then s + [c] else s
    ensures ListOk(s1, cursor) && running in s1 && Follows(s1, cursor, running)
    ensures t in s ==> t in s1 && Wait(s1, cursor, t) <= Wait(s, cursor, t) + if joined then 1 else 0
  {
    if joined {
      NoDupAppend(s, c);
      JoinFollows(s, cursor, running, c);
      if t in s { JoinWait(s, cursor, c, t); }
    }
  }

  /** The lists of a kill, with the parent that it may wake. */
  lemma KillLeaves(s: State, ready1: seq<Ref>, t: Ref)
    requires Fair(s) && s.running in s.info && ready1 == NotifyParent(MarkDead(s), s.info[s.running].parent).ready
    ensures ListOk(ready1, s.cursor) && s.running in ready1 && Follows(ready1, s.cursor, s.running)
    ensures KillSelf(s).ready == Without(ready1, s.running)
    ensures KillSelf(s).cursor == CursorAfterRemove(ready1, s.cursor, s.running)
    ensures t in s.ready ==> t in ready1 && Wait(ready1, s.cursor, t) <= Wait(s.ready, s.cursor, t) + Joins(s, DoKill)
  {
    FairList(s);
    KillNotifies(s);
    var c := FindPid(s.blocked, s.info, s.info[s.running].parent);
    MayJoin(s.ready, s.cursor, s.running, WakesParent(s), c, ready1, t);
  }

  lemma KillStep(s: State, t: Ref)
    requires Fair(s) && Enabled(s, DoKill)
    ensures Fair(Apply(s, DoKill))
    ensures t in s.ready && t != s.running ==>
              var s' := Apply(s, DoKill);
              t in s'.ready &&
              (s'.running == t || Wait(s'.ready, s'.cursor, t) < Wait(s.ready, s.cursor, t) + Joins(s, DoKill))
  {
    StepInv(s, DoKill);
    var ready1 := NotifyParent(MarkDead(s), s.info[s.running].parent).ready;
    KillLeaves(s, ready1, t);
    LeaveList(ready1, s.cursor, s.running);
    NoDupWithout(ready1, s.running);
    TickStep(KillSelf(s), t);
    if t in s.ready && t != s.running { LeaveWait(ready1, s.cursor, s.running, t); }
  }

  lemma JoinStep(s: State, s': State, c: Ref, t: Ref)
    requires Fair(s) && Inv(s') && s'.ready == s.ready + [c] && s'.cursor == s.cursor && s'.running == s.running
    ensures Fair(s')
    ensures t in s.ready ==> t in s'.ready && Wait(s'.ready, s'.cursor, t) <= Wait(s.ready, s.cursor, t) + 1
  {
    FairList(s);
    JoinFollows(s.ready, s.cursor, s.running, c);
    if t in s.ready { JoinWait(s.ready, s.cursor, c, t); }
  }

  /** A step brings a ready task nearer to its turn by its dispatch, and delays it by no more
      than the tasks that join. */
  lemma StepWait(s: State, a: Action, t: Ref)
    requires Fair(s) && Enabled(s, a)
    ensures Fair(Apply(s, a))
    ensures t in s.ready && t != s.running ==>
              var s' := Apply(s, a);
              && t in s'.ready
              && (s'.running == t ||
                  Wait(s'.ready, s'.cursor, t) + (if Dispatches(a) then 1 else 0) <=
                  Wait(s.ready, s.cursor, t) + Joins(s, a))
  {
    StepInv(s, a);
    FairList(s);
    match a {
      case DoTick => TickStep(s, t);
      case DoWait => WaitStep(s, t);
      case DoKill => KillStep(s, t);
      case DoFork(c) => JoinStep(s, Apply(s, a), c, t);
      case DoResume(pid) =>
        var c := FindPid(s.blocked, s.info, pid);
        if c != 0 { JoinStep(s, Apply(s, a), c, t); }
    }
  }

  // ---------------------------------------------------------------- runs

  /** Every step can be taken when its turn comes. */
  predicate Legal(s: State, steps: seq<Action>)
    decreases |steps|
  {
    steps == [] || (Enabled(s, steps[0]) && Legal(Apply(s, steps[0]), steps[1..]))
  }

  /** Task `t` is given the processor in the course of the steps. */
  predicate Runs(s: State, steps: seq<Action>, t: Ref)
    requires Legal(s, steps)
    decreases |steps|
  {
    steps != [] && var s' := Apply(s, steps[0]); s'.running == t || Runs(s', steps[1..], t)
  }

  function DispatchCount(steps: seq<Action>): nat {
    if steps == [] then 0 else (if Dispatches(steps[0]) then 1 else 0) + DispatchCount(steps[1..])
  }

  function JoinCount(s: State, steps: seq<Action>): nat
    requires Legal(s, steps)
    decreases |steps|
  {
    if steps == [] then 0 else Joins(s, steps[0]) + JoinCount(Apply(s, steps[0]), steps[1..])
  }

  lemma {:induction false} WaitInRuns(s: State, steps: seq<Action>, t: Ref)
    requires Fair(s) && Legal(s, steps) && t in s.ready && t != s.running
    ensures Runs(s, steps, t) || DispatchCount(steps) < Wait(s.ready, s.cursor, t) + JoinCount(s, steps)
    decreases |steps|
  {
    FairList(s);
    WaitBounds(s.ready, s.cursor, t);
    if steps != [] {
      StepWait(s, steps[0], t);
      var s' := Apply(s, steps[0]);
      if s'.running != t { WaitInRuns(s', steps[1..], t); }
    }
  }

  /** No ready task starves: whatever the others do, it is given the processor before there
      have been as many dispatches as there are ready tasks, plus one for each that joins. */
  lemma NoStarvation(s: State, steps: seq<Action>, t: Ref)
    requires Fair(s) && Legal(s, steps) && t in s.ready && t != s.running
    requires DispatchCount(steps) >= |s.ready| + JoinCount(s, steps)
    ensures Runs(s, steps, t)
  {
    FairList(s);
    WaitBounds(s.ready, s.cursor, t);
    WaitInRuns(s, steps, t);
  }

  /** Every state of every run is fair. */
  lemma {:induction false} RunFair(main: Ref, steps: seq<Action>, s: State)
    requires main != 0 && Reaches(main, steps, s)
    ensures Fair(s)
    decreases |steps|
  {
    if steps == [] {
      InitInv(main);
    } else {
      var k := |steps| - 1;
      var m :| Reaches(main, steps[..k], m) && Enabled(m, steps[k]) && s == Apply(m, steps[k]);
      RunFair(main, steps[..k], m);
      StepWait(m, steps[k], main);
    }
  }
}
