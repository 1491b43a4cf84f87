/** Which waits can end.  A task may wait when its counter of children is not zero, and fork
    copies the counter, so a task can wait that has no child.  Decided here, for every
    state of every run: whether some further run without a task_resume from outside takes a
    waiting task off the blocked list; and when a dying task finds its parent dead. */
module Waiting {
  import opened Lists
  import opened Sched
  import Fairness

  // ---------------------------------------------------------------- one step

  lemma FindsBlocked(s: State, t: Ref)
    requires Inv(s) && t in s.blocked
    ensures t in s.info && FindPid(s.blocked, s.info, s.info[t].pid) == t
  {
    NoNull(s);
    assert Live(s, t);
    FindPidFinds(s.blocked, s.info, s.info[t].pid, t);
  }

  /** A waiting task leaves the blocked list when it is resumed or when the running task
      dies and is its child, and never otherwise. */
  lemma LeavesBlockedIff(s: State, a: Action, t: Ref)
    requires Inv(s) && Enabled(s, a) && t in s.blocked
    ensures t in s.info
    ensures t !in Apply(s, a).blocked <==>
            match a
            case DoResume(pid) => pid == s.info[t].pid
            case DoKill => s.info[s.running].parent == s.info[t].pid
            case _ => false
  {
    FindsBlocked(s, t);
    match a {
      case DoResume(pid) =>
        var x := FindPid(s.blocked, s.info, pid);
        if x != 0 { NoDupWithout(s.blocked, x); }
      case DoKill =>
        KillNotifies(s);
        var x := FindPid(s.blocked, s.info, s.info[s.running].parent);
        if x != 0 { NoDupWithout(s.blocked, x); }
      case _ =>
    }
  }

  /** No step forgets a task, and none gives it another process id or another parent. */
  lemma StepKeepsIds(s: State, a: Action, r: Ref)
    requires Inv(s) && Enabled(s, a) && r in s.info
    ensures var i := Apply(s, a).info; r in i && i[r].pid == s.info[r].pid && i[r].parent == s.info[r].parent
  {
    if a.DoKill? { KillInfoOf(s, r); }
  }

  // ---------------------------------------------------------------- runs

  function After(s: State, steps: seq<Action>): State
    requires Fairness.Legal(s, steps)
    decreases |steps|
  {
    if steps == [] then s else After(Apply(s, steps[0]), steps[1..])
  }

  /** Nobody outside resumes anyone. */
  predicate NoResume(steps: seq<Action>) { forall i | 0 <= i < |steps| :: !steps[i].DoResume? }

  lemma {:induction false} AfterConcat(s: State, a: seq<Action>, b: seq<Action>)
    requires Fairness.Legal(s, a) && Fairness.Legal(After(s, a), b)
    ensures Fairness.Legal(s, a + b) && After(s, a + b) == After(After(s, a), b)
    decreases |a|
  {
    if a == [] {
      assert a + b == b;
    } else {
      AfterConcat(Apply(s, a[0]), a[1..], b);
      assert (a + b)[1..] == a[1..] + b;
    }
  }

  lemma {:induction false} AfterInv(s: State, steps: seq<Action>)
    requires Inv(s) && Fairness.Legal(s, steps)
    ensures Inv(After(s, steps))
    decreases |steps|
  {
    if steps != [] {
      StepInv(s, steps[0]);
      AfterInv(Apply(s, steps[0]), steps[1..]);
    }
  }

  // ---------------------------------------------------------------- the condition

  predicate IsChild(s: State, c: Ref, t: Ref) {
    c in s.info && t in s.info && s.info[c].parent == s.info[t].pid
  }

  /** Some child of `t` is ready, or waits itself and can be woken in this way. */
  ghost predicate Endable(s: State, t: Ref)
    requires PidsOk(s) && t in s.info
    decreases s.pids - s.info[t].pid
  {
    exists c :: IsChild(s, c, t) && (c in s.ready || (c in s.blocked && Endable(s, c)))
  }

  // ---------------------------------------------------------------- not endable: it waits for ever

  /** After a step each live child of a waiting task was its live child before, and whoever
      is ready among them was ready or could be woken. */
  lemma ChildWas(s: State, a: Action, t: Ref, c: Ref)
    requires Inv(s) && Enabled(s, a) && !a.DoResume? && t in s.blocked && t in Apply(s, a).blocked
    requires Live(Apply(s, a), c) && IsChild(Apply(s, a), c, t)
    ensures IsChild(s, c, t)
    ensures c in s.ready || (c in s.blocked && (c in Apply(s, a).blocked || Endable(s, c)))
  {
    var s' := Apply(s, a);
    FindsBlocked(s, t);
    StepKeepsIds(s, a, t);
    assert Live(s, s.running);
    match a {
      case DoTick =>
      case DoFork(_) =>
      case DoWait => BlockSelfLists(s);
      case DoKill =>
        KillLists(s);
        assert Live(KillSelf(s), c);
        KillInfoOf(s, c);
        if c in s.blocked { KillWakes(s, c); }
    }
  }

  /** Whoever a death takes off the blocked list has a ready child: the one that dies. */
  lemma KillWakes(s: State, c: Ref)
    requires Inv(s) && Enabled(s, DoKill) && c in s.blocked && c in s.info
    ensures c in Apply(s, DoKill).blocked || Endable(s, c)
  {
    LeavesBlockedIff(s, DoKill, c);
    if c !in Apply(s, DoKill).blocked { assert IsChild(s, s.running, c); }
  }

  /** No step makes the wait of a task endable that was not. */
  lemma {:induction false} EndableBefore(s: State, a: Action, t: Ref)
    requires Inv(s) && Enabled(s, a) && !a.DoResume? && Inv(Apply(s, a))
    requires t in s.blocked && t in Apply(s, a).blocked && t in s.info && t in Apply(s, a).info
    requires Endable(Apply(s, a), t)
    ensures Endable(s, t)
    decreases Apply(s, a).pids - Apply(s, a).info[t].pid
  {
    var s' := Apply(s, a);
    var c :| IsChild(s', c, t) && (c in s'.ready || (c in s'.blocked && Endable(s', c)));
    assert Live(s', c);
    ChildWas(s, a, t, c);
    if c in s.blocked && c in s'.blocked {
      NotBoth(s', c);
      EndableBefore(s, a, c);
    }
  }

  lemma NotBoth(s: State, c: Ref)
    requires ListsOk(s) && c in s.blocked
    ensures c !in s.ready && c in s.info
  {
    assert Live(s, c);
  }

  lemma StaysBlocked(s: State, a: Action, t: Ref)
    requires Inv(s) && Enabled(s, a) && !a.DoResume? && t in s.blocked && t in s.info && !Endable(s, t)
    ensures t in Apply(s, a).blocked && t in Apply(s, a).info && Inv(Apply(s, a)) && !Endable(Apply(s, a), t)
  {
    var s' := Apply(s, a);
    StepInv(s, a);
    LeavesBlockedIff(s, a, t);
    if t !in s'.blocked { assert IsChild(s, s.running, t); }
    StepKeepsIds(s, a, t);
    if Endable(s', t) { EndableBefore(s, a, t); }
  }

  /** Without a resume from outside, a wait that is not endable outlasts every run. */
  lemma {:induction false} WaitsForEver(s: State, steps: seq<Action>, t: Ref)
    requires Inv(s) && Fairness.Legal(s, steps) && NoResume(steps)
    requires t in s.blocked && t in s.info && !Endable(s, t)
    ensures t in After(s, steps).blocked
    decreases |steps|
  {
    if steps != [] {
      assert !steps[0].DoResume?;
      StaysBlocked(s, steps[0], t);
      assert NoResume(steps[1..]);
      WaitsForEver(Apply(s, steps[0]), steps[1..], t);
    }
  }

  // ---------------------------------------------------------------- endable: some run ends it

  ghost predicate SameIds(s: State, s': State) {
    forall r | r in s.info ::
      r in s'.info && s'.info[r].pid == s.info[r].pid && s'.info[r].parent == s.info[r].parent
  }

  /** Ticks bring a ready task to the processor and change nothing else. */
  lemma {:induction false} TicksTo(s: State, n: nat, c: Ref) returns (steps: seq<Action>)
    requires s.ready != [] && c in Ran(s, n)
    ensures Fairness.Legal(s, steps) && NoResume(steps)
    ensures After(s, steps) == s.(running := c, cursor := After(s, steps).cursor)
    decreases n
  {
    if Tick(s).running == c {
      steps := [DoTick];
      assert After(s, steps) == After(Tick(s), []);
    } else {
      var rest := TicksTo(Tick(s), n - 1, c);
      steps := [DoTick] + rest;
      assert steps[1..] == rest;
    }
  }

  /** The steps take `t` off the blocked list, alive, and leave everyone older there. */
  ghost predicate Ends(s: State, steps: seq<Action>, t: Ref)
    requires t in s.info
  {
    && Fairness.Legal(s, steps) && NoResume(steps)
    && t in After(s, steps).ready
    && SameIds(s, After(s, steps))
    && forall b | b in s.blocked && b in s.info && s.info[b].pid < s.info[t].pid :: b in After(s, steps).blocked
  }

  lemma DeathKeepsIds(s: State)
    requires Inv(s)
    ensures SameIds(s, KillSelf(s))
  {
    forall r | r in s.info
      ensures var i := KillSelf(s).info; r in i && i[r].pid == s.info[r].pid && i[r].parent == s.info[r].parent
    {
      KillInfoOf(s, r);
    }
  }

  /** A running child dies. */
  lemma EndsByDeath(s: State, t: Ref)
    requires Inv(s) && t in s.blocked && IsChild(s, s.running, t)
    ensures Ends(s, [DoKill], t)
  {
    DeathWakesParent(s, t);
    var s' := Apply(s, DoKill);
    assert After(s, [DoKill]) == After(s', []);
    DeathKeepsIds(s);
    forall b | b in s.blocked && b in s.info && s.info[b].pid < s.info[t].pid ensures b in s'.blocked {
      LeavesBlockedIff(s, DoKill, b);
    }
  }

  /** What holds of a run still holds when ticks come first. */
  lemma EndsAfterTicks(s: State, ticks: seq<Action>, m: State, more: seq<Action>, t: Ref)
    requires Fairness.Legal(s, ticks) && NoResume(ticks) && m == After(s, ticks)
    requires m.info == s.info && m.blocked == s.blocked && t in s.info && Ends(m, more, t)
    ensures Ends(s, ticks + more, t)
  {
    AfterConcat(s, ticks, more);
  }

  /** A ready child is given the processor and dies. */
  lemma EndsByReadyChild(s: State, t: Ref, c: Ref) returns (steps: seq<Action>)
    requires Inv(s) && t in s.blocked && IsChild(s, c, t) && c in s.ready
    ensures Ends(s, steps, t)
  {
    TicksReachAll(s, c);
    var ticks := TicksTo(s, |s.ready|, c);
    var m := After(s, ticks);
    AfterInv(s, ticks);
    EndsByDeath(m, t);
    EndsAfterTicks(s, ticks, m, [DoKill], t);
    steps := ticks + [DoKill];
  }

  /** Two parts of a run: the first wakes a child, the second uses it. */
  lemma EndsThrough(s: State, first: seq<Action>, c: Ref, second: seq<Action>, t: Ref)
    requires Inv(s) && t in s.blocked && IsChild(s, c, t) && Ends(s, first, c)
    requires t in After(s, first).info && Ends(After(s, first), second, t)
    ensures Ends(s, first + second, t)
  {
    AfterConcat(s, first, second);
  }

  lemma {:induction false} EndsByChild(s: State, t: Ref) returns (steps: seq<Action>)
    requires Inv(s) && t in s.blocked && t in s.info && Endable(s, t)
    ensures Ends(s, steps, t)
    decreases s.pids - s.info[t].pid
  {
    var c :| IsChild(s, c, t) && (c in s.ready || (c in s.blocked && Endable(s, c)));
    if c in s.ready {
      steps := EndsByReadyChild(s, t, c);
    } else {
      var first := EndsByChild(s, c);
      var m := After(s, first);
      AfterInv(s, first);
      var second := EndsByReadyChild(m, t, c);
      EndsThrough(s, first, c, second, t);
      steps := first + second;
    }
  }

  /** The waits that can end without a resume from outside are exactly those of tasks with a
      ready child, or with a waiting child whose own wait can end. */
  lemma WaitEndsIff(s: State, t: Ref)
    requires Inv(s) && t in s.blocked && t in s.info
    ensures Endable(s, t) <==>
            exists steps :: Fairness.Legal(s, steps) && NoResume(steps) && t !in After(s, steps).blocked
  {
    if Endable(s, t) {
      var steps := EndsByChild(s, t);
      AfterInv(s, steps);
      assert t !in After(s, steps).blocked;
    } else {
      forall steps | Fairness.Legal(s, steps) && NoResume(steps) ensures t in After(s, steps).blocked {
        WaitsForEver(s, steps, t);
      }
    }
  }

  // ---------------------------------------------------------------- inherited counters

  lemma {:induction false} NoneOf(list: seq<Ref>, info: map<Ref, Info>, pid: nat, c: Ref)
    requires Kids(list, info, pid) == 0 && c in list && c in info
    ensures info[c].parent != pid
  {
    if list[0] != c { NoneOf(list[1..], info, pid, c); }
  }

  /** A task that counts only what it inherited waits for nobody. */
  lemma OnlyInherited(s: State, t: Ref)
    requires Inv(s) && t in s.blocked && t in s.info && s.info[t].childamount == s.info[t].inherited
    ensures !Endable(s, t)
  {
    assert Live(s, t);
    var pid := s.info[t].pid;
    assert LiveKids(s, pid) == 0;
    forall c | IsChild(s, c, t) && (c in s.ready || c in s.blocked) ensures false {
      if c in s.ready { NoneOf(s.ready, s.info, pid, c); } else { NoneOf(s.blocked, s.info, pid, c); }
    }
  }

  function ChildlessRun(): seq<Action> { [DoFork(8), DoFork(12), DoTick, DoTick, DoTick, DoWait] }

  lemma ChildlessRunIs()
    ensures Fairness.Legal(Init(4), ChildlessRun())
    ensures var s := After(Init(4), ChildlessRun());
            12 in s.blocked && 12 in s.info && s.info[12].childamount == s.info[12].inherited == 1
  {
    var s := Fork(Fork(Init(4), 8), 12);
    assert s.ready == [4, 8, 12];
    assert Tick(Tick(Tick(s))) == s.(running := 12, cursor := 0);
    var run := ChildlessRun();
    assert run[1..] == [DoFork(12), DoTick, DoTick, DoTick, DoWait];
    assert run[2..] == [DoTick, DoTick, DoTick, DoWait];
    assert run[3..] == [DoTick, DoTick, DoWait];
  }

  /** Two forks of the first task, three ticks and a wait: the second child counts one child
      and has none, and no run without a resume from outside ends its wait. */
  lemma ChildlessWaitExample(steps: seq<Action>)
    requires Fairness.Legal(Init(4), ChildlessRun()) && Fairness.Legal(After(Init(4), ChildlessRun()), steps)
    requires NoResume(steps)
    ensures 12 in After(After(Init(4), ChildlessRun()), steps).blocked
  {
    ChildlessRunIs();
    InitInv(4);
    AfterInv(Init(4), ChildlessRun());
    var s := After(Init(4), ChildlessRun());
    OnlyInherited(s, 12);
    WaitsForEver(s, steps, 12);
  }

  // ---------------------------------------------------------------- dead parents

  /** kill_proc looks its parent up and counts down through the pointer it gets. */
  predicate NullParent(s: State)
    requires s.running in s.info
  {
    s.info[s.running].parent != 0 && FindTask(MarkDead(s), s.info[s.running].parent) == 0
  }

  /** That pointer is null exactly when the task was forked and its parent lives no more. */
  lemma NullParentIff(s: State)
    requires Inv(s)
    ensures s.running in s.info
    ensures NullParent(s) <==>
            s.info[s.running].parent != 0 && forall r | Live(s, r) && r in s.info :: !IsChild(s, s.running, r)
  {
    NoNull(s);
    assert Live(s, s.running);
    var m, parent := MarkDead(s), s.info[s.running].parent;
    forall r | Live(s, r) && r in s.info && s.info[r].pid == parent ensures FindTask(m, parent) == r {
      FindTaskFinds(m, parent, r);
    }
    var p := FindTask(m, parent);
    if p != 0 { assert Live(s, p) && IsChild(s, s.running, p); }
  }

  /** A child forks, ... */
  lemma OrphanFork() returns (run: seq<Action>, s: State)
    ensures Fairness.Legal(Init(4), run) && s == After(Init(4), run)
    ensures s.ready == [4, 8, 12] && s.cursor == 0 && s.running == 8 && s.blocked == []
    ensures s.info.Keys == {4, 8, 12} && s.info[4].pid == 1 && s.info[12].pid == 3 && s.info[12].parent == 2
  {
    run := [DoFork(8), DoTick, DoTick, DoFork(12)];
    assert run[1..] == [DoTick, DoTick, DoFork(12)];
    assert run[2..] == [DoTick, DoFork(12)];
    s := Fork(Tick(Tick(Fork(Init(4), 8))), 12);
  }

  lemma OrphanLists(s: State)
    requires s.running in s.info && s.ready == [4, 8, 12] && s.cursor == 0 && s.running == 8 && s.blocked == []
    ensures var d := KillSelf(s); d.ready == [4, 12] && d.cursor == 0 && d.blocked == []
  {
    KillNotifies(s);
    assert Without([4, 8, 12], 8) == [4, 12];
  }

  /** ... and dies, and the next but one to run is its own child. */
  lemma OrphanDeath(s: State) returns (run: seq<Action>, s': State)
    requires s.running in s.info && s.ready == [4, 8, 12] && s.cursor == 0 && s.running == 8 && s.blocked == []
    requires SameIds(s, KillSelf(s))
    ensures Fairness.Legal(s, run) && s' == After(s, run)
    ensures s'.ready == [4, 12] && s'.running == 12 && s'.blocked == [] && SameIds(s, s')
  {
    OrphanLists(s);
    s' := Tick(Tick(KillSelf(s)));
    run := [DoKill, DoTick];
    assert run[1..] == [DoTick];
  }

  /** So a run from the start reaches a state in which the pointer is null. */
  lemma OrphanExample() returns (run: seq<Action>, s: State)
    ensures Fairness.Legal(Init(4), run) && s == After(Init(4), run) && s.running in s.info && NullParent(s)
  {
    var first, m := OrphanFork();
    InitInv(4);
    AfterInv(Init(4), first);
    DeathKeepsIds(m);
    var second;
    second, s := OrphanDeath(m);
    AfterConcat(Init(4), first, second);
    AfterInv(m, second);
    run := first + second;
    NullParentIff(s);
  }
}
