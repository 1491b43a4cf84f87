/** The task lists and the scheduler of kernel/proc/sched.c and kernel/proc/tasking.c as
    they are kept in memory, refined against `Sched`.

    The `next` field of every task_t is the map `links`; a task is on at most one list at a
    time, so the lists share it. */
module Scheduler {
  import opened Lists
  import opened Sched

  type Links = map<Ref, Ref>

  /** The tasks `s` are linked in order, the last one to `after`. */
  predicate Segment(links: Links, s: seq<Ref>, after: Ref) {
    s == [] ||
    (s[0] != 0 && s[0] in links && links[s[0]] == FirstOr(s[1..], after) && Segment(links, s[1..], after))
  }

  lemma {:induction false} SegmentConcat(links: Links, a: seq<Ref>, b: seq<Ref>, after: Ref)
    ensures Segment(links, a + b, after) <==> Segment(links, a, FirstOr(b, after)) && Segment(links, b, after)
  {
    if a == [] {
      assert a + b == b;
    } else {
      assert (a + b)[1..] == a[1..] + b;
      SegmentConcat(links, a[1..], b, after);
    }
  }

  lemma {:induction false} SegmentFrame(links: Links, links': Links, s: seq<Ref>, after: Ref)
    requires Segment(links, s, after) && forall x | x in s && x in links :: x in links' && links'[x] == links[x]
    ensures Segment(links', s, after)
  {
    if s != [] {
      assert s[0] in s;
      SegmentFrame(links, links', s[1..], after);
    }
  }

  lemma SegmentAt(links: Links, s: seq<Ref>, k: nat)
    requires Segment(links, s, 0) && k < |s|
    ensures s[k] != 0 && s[k] in links && links[s[k]] == FirstOr(s[k + 1..], 0)
    ensures links[s[k]] != 0 <==> k + 1 < |s|
  {
    assert s == s[..k] + s[k..];
    SegmentConcat(links, s[..k], s[k..], 0);
    assert s[k..][1..] == s[k + 1..];
  }

  lemma HeadNull(links: Links, s: seq<Ref>)
    requires Segment(links, s, 0)
    ensures FirstOr(s, 0) == 0 <==> s == []
  {
  }

  /** Redirecting the last link. */
  lemma SegmentSetLast(links: Links, s: seq<Ref>, after: Ref, v: Ref)
    requires Segment(links, s, after) && NoDup(s) && s != []
    ensures Segment(links[LastOr(s, 0) := v], s, v)
  {
    var a, x := s[..|s| - 1], s[|s| - 1];
    assert s == a + [x];
    SegmentConcat(links, a, [x], after);
    NoDupConcat(a, [x]);
    SegmentFrame(links, links[x := v], a, x);
    SegmentConcat(links[x := v], a, [x], v);
  }

  /** Only the links of the tasks in `touched` changed. */
  predicate SameOutside(links: Links, links': Links, touched: seq<Ref>) {
    forall x | x in links && x !in touched :: x in links' && links'[x] == links[x]
  }

  lemma AppendLinks(links: Links, s: seq<Ref>, task: Ref)
    requires Segment(links, s, 0) && NoDup(s) && s != [] && task !in s && task != 0
    ensures Segment(links[task := 0][LastOr(s, 0) := task], s + [task], 0)
    ensures NoDup(s + [task])
  {
    var l1 := links[task := 0];
    SegmentFrame(links, l1, s, 0);
    SegmentSetLast(l1, s, 0, task);
    SegmentConcat(l1[LastOr(s, 0) := task], s, [task], 0);
    NoDupConcat(s, [task]);
  }

  lemma RemoveLinks(links: Links, a: seq<Ref>, task: Ref, b: seq<Ref>)
    requires Segment(links, a + [task] + b, 0) && NoDup(a + [task] + b) && a != []
    ensures task in links && links[task] == FirstOr(b, 0)
    ensures Segment(links[LastOr(a, 0) := links[task]], a + b, 0) && NoDup(a + b)
  {
    assert a + [task] + b == a + ([task] + b);
    SegmentConcat(links, a, [task] + b, 0);
    assert ([task] + b)[1..] == b;
    NoDupMiddle(a, task, b);
    NoDupConcat(a, b);
    SegmentSetLast(links, a, task, FirstOr(b, 0));
    SegmentFrame(links, links[LastOr(a, 0) := links[task]], b, 0);
    SegmentConcat(links[LastOr(a, 0) := links[task]], a, b, 0);
  }

  /** struct task_list */
  class TaskList {
    var head: Ref
    var cursor: Ref
    ghost var nodes: seq<Ref>

    ghost predicate Valid(links: Links)
      reads this
    {
      head == FirstOr(nodes, 0) && NoDup(nodes) && Segment(links, nodes, 0)
    }

    /** set_list */
    constructor (task: Ref, ghost links: Links)
      requires task != 0 ==> task in links && links[task] == 0
      ensures Valid(links) && cursor == task && nodes == if task == 0 then [] else [task]
    {
      head, cursor := task, task;
      nodes := if task == 0 then [] else [task];
    }

    /** add_to_list */
    method Add(task: Ref, links: Links) returns (links': Links)
      requires Valid(links) && task !in nodes && task != 0
      modifies this
      ensures Valid(links') && nodes == old(nodes) + [task]
      ensures cursor == if old(nodes) == [] then task else old(cursor)
      ensures SameOutside(links, links', old(nodes) + [task])
    {
      var tmp := head;
      links' := links[task := 0];
      HeadNull(links, nodes);
      if tmp == 0 {
        head, cursor := task, task;
        nodes := [task];
        return;
      }
      SegmentFrame(links, links', nodes, 0);
      ghost var k := 0;
      SegmentAt(links', nodes, 0);
      while links'[tmp] != 0
        invariant head == old(head) && nodes == old(nodes) && cursor == old(cursor)
        invariant k < |nodes| && tmp == nodes[k] && tmp in links'
        invariant links'[tmp] != 0 <==> k + 1 < |nodes|
        decreases |nodes| - k
      {
        SegmentAt(links', nodes, k);
        tmp := links'[tmp];
        k := k + 1;
        SegmentAt(links', nodes, k);
      }
      AppendLinks(links, nodes, task);
      links' := links'[tmp := task];
      nodes := nodes + [task];
    }

    /** The walk of remove_from_list: the task before `task`, and whether it was found. */
    method Find(task: Ref, links: Links) returns (found: bool, prev: Ref, ghost k: nat)
      requires Valid(links)
      ensures found <==> task in nodes
      ensures found ==> k < |nodes| && nodes[k] == task && k == IndexOf(nodes, task) && prev == LastOr(nodes[..k], 0)
    {
      HeadNull(links, nodes);
      var tmp := head;
      prev, k := 0, 0;
      while tmp != 0
        invariant k <= |nodes| && tmp == FirstOr(nodes[k..], 0) && prev == LastOr(nodes[..k], 0)
        invariant tmp != 0 <==> k < |nodes|
        invariant task !in nodes[..k]
        decreases |nodes| - k
      {
        SegmentAt(links, nodes, k);
        if tmp == task {
          IndexUnique(nodes, task, k);
          return true, prev, k;
        }
        prev, tmp := tmp, links[tmp];
        k := k + 1;
      }
      return false, 0, k;
    }

    /** remove_from_list: 0, or -1 when the task is not on the list. */
    method Remove(task: Ref, links: Links) returns (links': Links, r: int)
      requires Valid(links)
      modifies this
      ensures Valid(links')
      ensures nodes == Without(old(nodes), task) && cursor == CursorAfterRemove(old(nodes), old(cursor), task)
      ensures r == if task in old(nodes) then 0 else -1
      ensures SameOutside(links, links', old(nodes))
    {
      links' := links;
      ghost var k;
      var found, prev;
      found, prev, k := Find(task, links);
      if !found { return links, -1; }
      ghost var a, b := nodes[..k], nodes[k + 1..];
      assert nodes == a + [task] + b;
      SegmentAt(links, nodes, k);
      PrevNull(links, nodes, k);
      if prev != 0 {
        RemoveLinks(links, a, task, b);
        links' := links[prev := links[task]];
      } else {
        assert a + b == nodes[1..];
        head, cursor := links[task], links[task];
      }
      nodes := a + b;
      return links', 0;
    }

    /** get_next_from_list */
    method GetNext(links: Links) returns (next: Ref)
      requires Valid(links) && nodes != [] && (cursor == 0 || cursor in nodes)
      modifies this`cursor
      ensures (next, cursor) == Sched.GetNext(nodes, old(cursor))
    {
      next := cursor;
      SegmentAt(links, nodes, 0);
      if next != 0 {
        ghost var i := IndexOf(nodes, next);
        SegmentAt(links, nodes, i);
        SuccessorAt(nodes, i);
        cursor := links[cursor];
      } else {
        next := head;
        SuccessorAt(nodes, 0);
        cursor := links[head];
      }
    }

    /** find_task_in_list_by_pid */
    method FindByPid(pid: nat, links: Links, info: map<Ref, Info>) returns (task: Ref)
      requires Valid(links) && forall x | x in nodes :: x in info
      ensures task == FindPid(nodes, info, pid)
    {
      HeadNull(links, nodes);
      task := head;
      ghost var k := 0;
      while task != 0
        invariant k <= |nodes| && task == FirstOr(nodes[k..], 0)
        invariant task != 0 <==> k < |nodes|
        invariant FindPid(nodes, info, pid) == FindPid(nodes[k..], info, pid)
        decreases |nodes| - k
      {
        SegmentAt(links, nodes, k);
        assert nodes[k] in nodes && nodes[k..][1..] == nodes[k + 1..];
        if info[task].pid == pid { return; }
        task := links[task];
        k := k + 1;
      }
    }

    /** task_count_list */
    method Count(links: Links) returns (cnt: nat)
      requires Valid(links)
      ensures cnt == |nodes|
    {
      HeadNull(links, nodes);
      var tmp := head;
      cnt := 0;
      while tmp != 0
        invariant cnt <= |nodes| && tmp == FirstOr(nodes[cnt..], 0)
        invariant tmp != 0 <==> cnt < |nodes|
        decreases |nodes| - cnt
      {
        SegmentAt(links, nodes, cnt);
        tmp := links[tmp];
        cnt := cnt + 1;
      }
    }
  }

  lemma IndexUnique(s: seq<Ref>, x: Ref, k: nat)
    requires k < |s| && s[k] == x && x !in s[..k]
    ensures IndexOf(s, x) == k
  {
    forall j | 0 <= j < k ensures s[j] != x { assert s[..k][j] == s[j]; }
  }

  lemma PrevNull(links: Links, s: seq<Ref>, k: nat)
    requires Segment(links, s, 0) && k < |s|
    ensures LastOr(s[..k], 0) == 0 <==> k == 0
  {
    if k > 0 { SegmentAt(links, s, k - 1); }
  }

  /** The facts about the lists that a task finds when it gives up the processor. */
  lemma RunningIsFound(s: State)
    requires Inv(s)
    ensures FindPid(s.ready, s.info, s.info[s.running].pid) == s.running != 0
    ensures forall x | x in s.ready :: x in s.info && x !in s.blocked
    ensures forall x | x in s.blocked :: x in s.info && x !in s.ready
  {
    forall x | x in s.ready ensures x in s.info { assert Live(s, x); }
    forall x | x in s.blocked ensures x in s.info { assert Live(s, x); }
    FindPidFinds(s.ready, s.info, s.info[s.running].pid, s.running);
  }

  lemma ResumeIs(s: State, pid: nat, t: Ref, s': State)
    requires t == FindPid(s.blocked, s.info, pid) && t != 0
    requires s'.ready == s.ready + [t] && s'.blocked == Without(s.blocked, t)
    requires s'.cursor == (if s.ready == [] then t else s.cursor) && s'.running == s.running
    requires s'.info == s.info && s'.pids == s.pids && s'.locks == s.locks && s'.failures == s.failures
    ensures s' == Resume(s, pid)
  {
  }

  class Scheduler {
    const ready: TaskList
    const blocked: TaskList
    const sleeping: TaskList
    var links: Links
    var info: map<Ref, Info>
    var running: Ref
    var pids: nat
    var locks: nat
    ghost var failures: nat

    ghost predicate WellLinked()
      reads this, ready, blocked, sleeping
    {
      && ready != blocked && ready != sleeping && blocked != sleeping
      && ready.Valid(links) && blocked.Valid(links) && sleeping.Valid(links) && sleeping.nodes == []
    }

    ghost function Abs(): State
      reads this, ready, blocked
    {
      State(ready.nodes, ready.cursor, blocked.nodes, running, info, pids, locks, failures)
    }

    ghost predicate Valid()
      reads this, ready, blocked, sleeping
    {
      WellLinked() && Inv(Abs())
    }

    /** init_tasking and init_scheduler */
    constructor (main: Ref)
      requires main != 0
      ensures Valid() && Abs() == Init(main)
      ensures fresh(ready) && fresh(blocked) && fresh(sleeping)
    {
      links := map[main := 0];
      info := map[main := Info(1, 0, 0, false, 0)];
      ready := new TaskList(main, map[main := 0]);
      blocked := new TaskList(0, map[main := 0]);
      sleeping := new TaskList(0, map[main := 0]);
      running, pids, locks, failures := main, 2, 0, 0;
      new;
      InitInv(main);
    }

    /** schedule and switch_task: the lock is taken and given back. */
    method Schedule()
      requires WellLinked() && ready.nodes != [] && (ready.cursor == 0 || ready.cursor in ready.nodes)
      modifies this`running, this`locks, ready`cursor
      ensures WellLinked() && Abs() == Tick(old(Abs()))
    {
      locks := locks + 1;
      var next := ready.GetNext(links);
      if next != running {
        running := next;
      }
      locks := locks - 1;
    }

    /** task_resume: -1 when no blocked task has the process id, and then the lock that was
        taken is kept. */
    method TaskResume(pid: nat) returns (r: int)
      requires WellLinked() && (forall x | x in blocked.nodes :: x in info && x !in ready.nodes)
      modifies this`locks, this`links, this`failures, ready, blocked
      ensures WellLinked() && Abs() == Resume(old(Abs()), pid)
      ensures r == 0 || r == -1
      ensures r == -1 <==> FindPid(old(blocked.nodes), info, pid) == 0
      ensures locks == old(locks) + if r == 0 then 0 else 1
    {
      ghost var s := Abs();
      locks := locks + 1;
      var task := blocked.FindByPid(pid, links, info);
      if task == 0 {
        failures := failures + 1;
        return -1;
      }
      var l1, rc := blocked.Remove(task, links);
      SegmentFrame(links, l1, ready.nodes, 0);
      NoDupWithout(old(blocked.nodes), task);
      var l2 := ready.Add(task, l1);
      SegmentFrame(l1, l2, blocked.nodes, 0);
      links := l2;
      locks := locks - 1;
      ResumeIs(s, pid, task, Abs());
      return 0;
    }

    /** The timer interrupt. */
    method TimerTick()
      requires Valid()
      modifies this`running, this`locks, ready`cursor
      ensures Valid() && Abs() == Tick(old(Abs()))
    {
      TickInv(Abs());
      Schedule();
    }

    /** create_task and add_task_to_queue */
    method CreateTask(child: Ref)
      requires WellLinked() && running in info && child != 0 && child !in ready.nodes && child !in blocked.nodes
      requires forall x | x in blocked.nodes :: x !in ready.nodes
      modifies this`info, this`pids, this`links, ready
      ensures WellLinked() && Abs() == Sched.Fork(old(Abs()), child)
    {
      var me := info[running];
      info := info[child := Info(pids, me.pid, me.childamount, false, me.childamount)];
      pids := pids + 1;
      info := info[running := me.(childamount := me.childamount + 1)];
      var l := ready.Add(child, links);
      SegmentFrame(links, l, blocked.nodes, 0);
      links := l;
    }

    /** fork, for a child whose task_t is at `child`: a process id no task ever had. */
    method Fork(child: Ref) returns (pid: nat)
      requires Valid() && child != 0 && child !in info
      modifies this`info, this`pids, this`links, ready
      ensures Valid() && Abs() == Sched.Fork(old(Abs()), child)
      ensures child in info && pid == info[child].pid && forall r | r in old(info) :: old(info)[r].pid != pid
    {
      ghost var s := Abs();
      ForkInv(s, child);
      RunningIsFound(s);
      pid := pids;
      CreateTask(child);
    }

    /** The move of a ready task to the blocked list. */
    method MoveToBlocked(task: Ref)
      requires WellLinked() && task in ready.nodes && task !in blocked.nodes && task != 0
      requires forall x | x in ready.nodes :: x !in blocked.nodes
      modifies this`links, ready, blocked
      ensures WellLinked()
      ensures ready.nodes == Without(old(ready.nodes), task) && blocked.nodes == old(blocked.nodes) + [task]
      ensures ready.cursor == CursorAfterRemove(old(ready.nodes), old(ready.cursor), task)
    {
      NoDupWithout(ready.nodes, task);
      var l1, rc := ready.Remove(task, links);
      SegmentFrame(links, l1, blocked.nodes, 0);
      var l2 := blocked.Add(task, l1);
      SegmentFrame(l1, l2, ready.nodes, 0);
      links := l2;
    }

    /** task_block of the running task. */
    method TaskBlock(pid: nat) returns (r: int)
      requires WellLinked() && FindPid(ready.nodes, info, pid) == running != 0
      requires (forall x | x in ready.nodes :: x in info && x !in blocked.nodes)
      requires var s := BlockSelf(Abs()); s.ready != [] && (s.cursor == 0 || s.cursor in s.ready)
      modifies this`locks, this`links, this`running, ready, blocked
      ensures WellLinked() && r == 0 && Abs() == Tick(BlockSelf(old(Abs())))
    {
      locks := locks + 1;
      var task := ready.FindByPid(pid, links, info);
      MoveToBlocked(task);
      locks := locks - 1;
      Schedule();
      return 0;
    }

    /** task_wait: only a task that counts children waits. */
    method TaskWait() returns (r: int)
      requires Valid() && BlockSelf(Abs()).ready != []
      modifies this`locks, this`links, this`running, ready, blocked
      ensures Valid()
      ensures if old(info[running].childamount) != 0 then r == 0 && Abs() == Apply(old(Abs()), DoWait)
              else r == -1 && Abs() == old(Abs())
    {
      ghost var s := Abs();
      if info[running].childamount != 0 {
        WaitInv(s);
        RunningIsFound(s);
        RemoveCursor(s);
        r := TaskBlock(info[running].pid);
      } else {
        r := -1;
      }
    }

    /** find_task_by_pid: the ready list, the sleeping one and the blocked one. */
    method FindTaskByPid(pid: nat) returns (task: Ref)
      requires WellLinked()
      requires (forall x | x in ready.nodes :: x in info) && (forall x | x in blocked.nodes :: x in info)
      ensures task == FindTask(Abs(), pid)
    {
      task := ready.FindByPid(pid, links, info);
      if task != 0 { return; }
      task := sleeping.FindByPid(pid, links, info);
      if task != 0 { return; }
      task := blocked.FindByPid(pid, links, info);
    }

    /** The part of kill_proc that deals with the parent. */
    method NotifyParentOf(parent: nat)
      requires WellLinked()
      requires forall x | x in ready.nodes :: x in info
      requires forall x | x in blocked.nodes :: x in info && x !in ready.nodes
      modifies this`info, this`locks, this`links, this`failures, ready, blocked
      ensures WellLinked() && Abs() == NotifyParent(old(Abs()), parent)
    {
      if parent != 0 {
        var p := FindTaskByPid(parent);
        if p != 0 {
          info := info[p := info[p].(childamount := info[p].childamount - 1)];
        }
        var rc := TaskResume(parent);
      }
    }

    /** kill_proc of the running task, on the lists. */
    method MarkAndRemove()
      requires WellLinked() && running in info
      requires forall x | x in ready.nodes :: x in info
      requires forall x | x in blocked.nodes :: x in info && x !in ready.nodes
      requires var s1 := NotifyParent(MarkDead(Abs()), info[running].parent);
               forall x | x in s1.ready :: x !in s1.blocked
      modifies this`info, this`locks, this`links, this`failures, ready, blocked
      ensures WellLinked() && Abs() == KillSelf(old(Abs()))
    {
      var task, parent := running, info[running].parent;
      info := info[task := info[task].(zombie := true)];
      NotifyParentOf(parent);
      var l, rc := ready.Remove(task, links);
      SegmentFrame(links, l, blocked.nodes, 0);
      links := l;
    }

    method KillAndSwitch()
      requires WellLinked() && running in info
      requires forall x | x in ready.nodes :: x in info
      requires forall x | x in blocked.nodes :: x in info && x !in ready.nodes
      requires var s1 := NotifyParent(MarkDead(Abs()), info[running].parent);
               forall x | x in s1.ready :: x !in s1.blocked
      requires var s' := KillSelf(Abs()); s'.ready != [] && (s'.cursor == 0 || s'.cursor in s'.ready)
      modifies this`info, this`locks, this`links, this`failures, this`running, ready, blocked
      ensures WellLinked() && Abs() == Tick(KillSelf(old(Abs())))
    {
      MarkAndRemove();
      running := ready.GetNext(links);
    }

    /** kill_proc of the running task, and the switch to the next one. */
    method KillProc()
      requires Valid() && KillSelf(Abs()).ready != []
      modifies this`info, this`locks, this`links, this`failures, this`running, ready, blocked
      ensures Valid() && Abs() == Apply(old(Abs()), DoKill)
    {
      ghost var s := Abs();
      RunningIsFound(s);
      NotifiedLists(s);
      KillCursor(s);
      KillInv(s);
      KillAndSwitch();
    }

    /** task_count_all */
    method TaskCountAll() returns (cnt: nat)
      requires WellLinked()
      ensures cnt == TaskCount(Abs())
    {
      var a := ready.Count(links);
      var b := blocked.Count(links);
      var c := sleeping.Count(links);
      return a + b + c;
    }
  }
}
