/** The scheduler of kernel/proc/sched.c with fork, wait and kill of kernel/proc/tasking.c
    as a transition system.  `Scheduler` refines it with linked lists.

    A task is named by the address of its task_t; address 0 is the null pointer.  The
    sleeping list is always empty: nothing in the kernel ever puts a task on it. */
module Sched {
  import opened Lists

  type Ref = nat

  datatype Info = Info(
    pid: nat,
    parent: nat,
    childamount: int,
    zombie: bool,
    inherited: int)         // history: the counter of children the task was born with

  datatype State = State(
    ready: seq<Ref>,
    cursor: Ref,            // ready_list.next: the task to run next, or null
    blocked: seq<Ref>,
    running: Ref,           // g_runningtask
    info: map<Ref, Info>,   // every task_t ever allocated
    pids: nat,              // PIDS: the next process id
    locks: nat,             // scheduler_locks
    failures: nat)          // history: calls of task_resume that returned -1

  // ---------------------------------------------------------------- task lists

  /** The position of `x`, or |s|. */
  function IndexOf(s: seq<Ref>, x: Ref): (i: nat)
    ensures i <= |s|
    ensures i < |s| ==> s[i] == x
    ensures i == |s| <==> x !in s
    ensures forall k | 0 <= k < i :: s[k] != x
  {
    if s == [] || s[0] == x then 0 else 1 + IndexOf(s[1..], x)
  }

  function Without(s: seq<Ref>, x: Ref): seq<Ref> {
    var i := IndexOf(s, x);
    if i < |s| then s[..i] + s[i + 1..] else s
  }

  /** The task behind `x`, or null. */
  function Successor(s: seq<Ref>, x: Ref): Ref {
    if s == [] then 0 else if s[0] == x then FirstOr(s[1..], 0) else Successor(s[1..], x)
  }

  /** get_next_from_list: the task under the cursor, or the head when the cursor ran off
      the end, and the new cursor. */
  function GetNext(s: seq<Ref>, cursor: Ref): (Ref, Ref)
    requires s != []
  {
    var next := if cursor != 0 then cursor else s[0];
    (next, Successor(s, next))
  }

  /** remove_from_list: removing the head also resets the cursor. */
  function CursorAfterRemove(s: seq<Ref>, cursor: Ref, x: Ref): Ref {
    if s != [] && s[0] == x then FirstOr(s[1..], 0) else cursor
  }

  function FindPid(s: seq<Ref>, info: map<Ref, Info>, pid: nat): (r: Ref)
    ensures r == 0 || (r in s && r in info && info[r].pid == pid)
  {
    if s == [] then 0
    else if s[0] in info && s[0] != 0 && info[s[0]].pid == pid then s[0]
    else FindPid(s[1..], info, pid)
  }

  // ---------------------------------------------------------------- steps

  function Init(main: Ref): State {
    State([main], main, [], main, map[main := Info(1, 0, 0, false, 0)], 2, 0, 0)
  }

  /** The timer tick: schedule() hands the processor to the next ready task. */
  function Tick(s: State): State
    requires s.ready != []
  {
    var (next, cursor) := GetNext(s.ready, s.cursor);
    s.(running := next, cursor := cursor)
  }

  /** fork: the child is a copy of the running task, its counter of children included,
      with a new process id; it goes to the end of the ready list. */
  function Fork(s: State, child: Ref): State
    requires s.running in s.info
  {
    var me := s.info[s.running];
    s.(info := s.info[child := Info(s.pids, me.pid, me.childamount, false, me.childamount)]
                     [s.running := me.(childamount := me.childamount + 1)],
    pids := s.pids + 1,
    ready := s.ready + [child],
    cursor := if s.ready == [] then child else s.cursor)
  }

  /** task_block of the running task, as task_wait makes it, up to the call of schedule. */
  function BlockSelf(s: State): State {
    s.(ready := Without(s.ready, s.running),
    cursor := CursorAfterRemove(s.ready, s.cursor, s.running),
    blocked := s.blocked + [s.running])
  }

  /** task_resume: a blocked task goes to the end of the ready list.  When there is no
      such task the lock that was taken is not given back. */
  function Resume(s: State, pid: nat): State {
    var t := FindPid(s.blocked, s.info, pid);
    if t == 0 then s.(locks := s.locks + 1, failures := s.failures + 1)
    else
      s.(blocked := Without(s.blocked, t),
      ready := s.ready + [t],
      cursor := if s.ready == [] then t else s.cursor)
  }

  /** find_task_by_pid */
  function FindTask(s: State, pid: nat): (r: Ref)
    ensures r == 0 || (r in s.info && s.info[r].pid == pid && (r in s.ready || r in s.blocked))
  {
    var r := FindPid(s.ready, s.info, pid);
    if r != 0 then r else FindPid(s.blocked, s.info, pid)
  }

  /** The parent of a dying task loses a child.  A parent that is already dead is not
      found, and the decrement then goes through a null pointer and touches no task. */
  function LoseChild(s: State, parent: nat): State {
    var p := FindTask(s, parent);
    if p == 0 then s
    else s.(info := s.info[p := s.info[p].(childamount := s.info[p].childamount - 1)])
  }

  function MarkDead(s: State): State
    requires s.running in s.info
  {
    s.(info := s.info[s.running := s.info[s.running].(zombie := true)])
  }

  /** The part of kill_proc that deals with the parent: it is woken if it waits. */
  function NotifyParent(s: State, parent: nat): State {
    if parent == 0 then s else Resume(LoseChild(s, parent), parent)
  }

  /** kill_proc of the running task, up to the choice of the next one. */
  function KillSelf(s: State): State
    requires s.running in s.info
  {
    var s1 := NotifyParent(MarkDead(s), s.info[s.running].parent);
    s1.(ready := Without(s1.ready, s.running), cursor := CursorAfterRemove(s1.ready, s1.cursor, s.running))
  }

  datatype Action = DoTick | DoFork(child: Ref) | DoWait | DoKill | DoResume(pid: nat)

  /** Steps the kernel can take: a fork gets memory that is not in use, a task waits only
      for children it has, and whoever leaves the ready list leaves someone behind on it. */
  predicate Enabled(s: State, a: Action) {
    match a
    case DoTick => s.ready != []
    case DoFork(c) => c != 0 && c !in s.info && s.running in s.info
    case DoWait => s.running in s.info && s.info[s.running].childamount != 0 && BlockSelf(s).ready != []
    case DoKill => s.running in s.info && KillSelf(s).ready != []
    case DoResume(_) => true
  }

  function Apply(s: State, a: Action): State
    requires Enabled(s, a)
  {
    match a
    case DoTick => Tick(s)
    case DoFork(c) => Fork(s, c)
    case DoWait => Tick(BlockSelf(s))
    case DoKill => Tick(KillSelf(s))
    case DoResume(pid) => Resume(s, pid)
  }

  // ---------------------------------------------------------------- lists without repetition

  lemma NoDupAppend(s: seq<Ref>, x: Ref)
    requires NoDup(s) && x !in s
    ensures NoDup(s + [x])
  {
    NoDupConcat(s, [x]);
  }

  lemma NoDupWithout(s: seq<Ref>, x: Ref)
    requires NoDup(s) && x in s
    ensures NoDup(Without(s, x)) && x !in Without(s, x)
    ensures forall y :: y in Without(s, x) <==> y in s && y != x
    ensures |Without(s, x)| == |s| - 1
  {
    var i := IndexOf(s, x);
    var a, b := s[..i], s[i + 1..];
    assert s == a + ([x] + b);
    NoDupConcat(a, [x] + b);
    NoDupConcat([x], b);
    NoDupConcat(a, b);
  }

  /** A place in a list: s[p], or null behind the end. */
  function CursorAt(s: seq<Ref>, p: nat): Ref { if p < |s| then s[p] else 0 }

  lemma {:induction false} SuccessorAt(s: seq<Ref>, p: nat)
    requires NoDup(s) && p < |s|
    ensures Successor(s, s[p]) == CursorAt(s, p + 1)
  {
    if p > 0 {
      assert s[p] == s[1..][p - 1];
      SuccessorAt(s[1..], p - 1);
    }
  }

  lemma SuccessorIn(s: seq<Ref>, x: Ref)
    requires NoDup(s) && x in s && 0 !in s
    ensures Successor(s, x) == 0 || Successor(s, x) in s
    ensures Successor(s, x) != x
  {
    var i := IndexOf(s, x);
    SuccessorAt(s, i);
    var a, b := s[..i + 1], s[i + 1..];
    assert s == a + b && a[i] == x;
    NoDupConcat(a, b);
    if b != [] { assert b[0] in b; }
  }

  // ---------------------------------------------------------------- invariant

  predicate Live(s: State, r: Ref) { r in s.ready || r in s.blocked }

  /** Each live task is on exactly one of the two lists, once; dead ones are on none. */
  ghost predicate ListsOk(s: State) {
    && NoDup(s.ready) && NoDup(s.blocked)
    && (forall r | r in s.ready :: r !in s.blocked)
    && (forall r | Live(s, r) :: r in s.info)
    && (forall r | r in s.info :: r != 0 && (Live(s, r) <==> !s.info[r].zombie))
  }

  /** The running task is ready; the cursor is null or on a ready task, and on the running
      one only while that is the head. */
  ghost predicate CursorOk(s: State) {
    && s.running in s.ready
    && (s.cursor == 0 || s.cursor in s.ready)
    && (s.cursor == s.running ==> s.ready[0] == s.running)
  }

  /** Process ids are never given twice, and parents are older than their children. */
  ghost predicate PidsOk(s: State) {
    && (forall r | r in s.info :: s.info[r].parent < s.info[r].pid < s.pids)
    && (forall a, b | a in s.info && b in s.info && a != b :: s.info[a].pid != s.info[b].pid)
  }

  /** How many tasks of a list have the parent `pid`. */
  ghost function Kids(list: seq<Ref>, info: map<Ref, Info>, pid: nat): nat {
    if list == [] then 0
    else (if list[0] in info && info[list[0]].parent == pid then 1 else 0) + Kids(list[1..], info, pid)
  }

  ghost function LiveKids(s: State, pid: nat): nat {
    Kids(s.ready, s.info, pid) + Kids(s.blocked, s.info, pid)
  }

  /** The counter of a task is its live children and the counter fork copied into it. */
  ghost predicate Counted(s: State, i: Info) {
    i.inherited >= 0 && i.childamount == LiveKids(s, i.pid) + i.inherited
  }

  ghost predicate KidsOk(s: State) {
    forall r | Live(s, r) && r in s.info :: Counted(s, s.info[r])
  }

  ghost predicate Inv(s: State) {
    ListsOk(s) && CursorOk(s) && PidsOk(s) && KidsOk(s) && s.locks == s.failures
  }

  lemma InitInv(main: Ref)
    requires main != 0
    ensures Inv(Init(main))
  {
    assert Kids([main], Init(main).info, 1) == 0;
  }

  // ---------------------------------------------------------------- children

  lemma {:induction false} KidsConcat(a: seq<Ref>, b: seq<Ref>, info: map<Ref, Info>, pid: nat)
    ensures Kids(a + b, info, pid) == Kids(a, info, pid) + Kids(b, info, pid)
  {
    if a == [] {
      assert a + b == b;
    } else {
      KidsConcat(a[1..], b, info, pid);
      assert (a + b)[1..] == a[1..] + b;
    }
  }

  ghost function IsKid(r: Ref, info: map<Ref, Info>, pid: nat): nat {
    if r in info && info[r].parent == pid then 1 else 0
  }

  lemma KidsAppend(s: seq<Ref>, x: Ref, info: map<Ref, Info>, pid: nat)
    ensures Kids(s + [x], info, pid) == Kids(s, info, pid) + IsKid(x, info, pid)
  {
    KidsConcat(s, [x], info, pid);
  }

  lemma KidsWithout(s: seq<Ref>, x: Ref, info: map<Ref, Info>, pid: nat)
    requires x in s
    ensures Kids(s, info, pid) == Kids(Without(s, x), info, pid) + IsKid(x, info, pid)
  {
    var i := IndexOf(s, x);
    var a, b := s[..i], s[i + 1..];
    assert s == (a + [x]) + b;
    KidsAppend(a, x, info, pid);
    KidsConcat(a + [x], b, info, pid);
    KidsConcat(a, b, info, pid);
  }

  /** Only the parents matter. */
  lemma {:induction false} KidsFrame(s: seq<Ref>, info: map<Ref, Info>, info': map<Ref, Info>, pid: nat)
    requires forall r | r in s :: IsKid(r, info, pid) == IsKid(r, info', pid)
    ensures Kids(s, info, pid) == Kids(s, info', pid)
  {
    if s != [] {
      assert s[0] in s;
      KidsFrame(s[1..], info, info', pid);
    }
  }

  // ---------------------------------------------------------------- each step keeps the invariant

  lemma TickCursor(s: State)
    requires NoDup(s.ready) && 0 !in s.ready && s.ready != [] && (s.cursor == 0 || s.cursor in s.ready)
    ensures CursorOk(Tick(s))
  {
    SuccessorIn(s.ready, GetNext(s.ready, s.cursor).0);
  }

  lemma NoNull(s: State)
    requires ListsOk(s)
    ensures 0 !in s.ready && 0 !in s.blocked
  {
    assert forall r | Live(s, r) :: r in s.info;
    assert !Live(s, 0);
  }

  lemma TickInv(s: State)
    requires ListsOk(s) && PidsOk(s) && KidsOk(s) && s.locks == s.failures
    requires s.ready != [] && (s.cursor == 0 || s.cursor in s.ready)
    ensures Inv(Tick(s))
  {
    NoNull(s);
    TickCursor(s);
    var s' := Tick(s);
    forall r | Live(s', r) ensures r in s'.info { assert Live(s, r); }
    forall r | r in s'.info ensures r != 0 && (Live(s', r) <==> !s'.info[r].zombie) {
      assert Live(s, r) <==> Live(s', r);
    }
    forall r | Live(s', r) && r in s'.info ensures Counted(s', s'.info[r]) {
      assert Live(s, r);
    }
  }

  /** A task that leaves the ready list takes the cursor with it only as the head. */
  lemma RemoveCursor(s: State)
    requires CursorOk(s) && NoDup(s.ready)
    ensures var c := CursorAfterRemove(s.ready, s.cursor, s.running);
            c == 0 || c in Without(s.ready, s.running)
  {
    NoDupWithout(s.ready, s.running);
    var c := CursorAfterRemove(s.ready, s.cursor, s.running);
    if s.ready[0] == s.running && c != 0 {
      assert c in s.ready[1..];
    }
  }

  lemma BlockSelfLists(s: State)
    requires Inv(s)
    ensures ListsOk(BlockSelf(s))
    ensures forall r :: Live(BlockSelf(s), r) <==> Live(s, r)
  {
    var s' := BlockSelf(s);
    NoDupWithout(s.ready, s.running);
    NoDupAppend(s.blocked, s.running);
    forall r ensures Live(s', r) <==> Live(s, r) {}
  }

  lemma BlockSelfKids(s: State)
    requires Inv(s)
    ensures KidsOk(BlockSelf(s))
  {
    var s' := BlockSelf(s);
    BlockSelfLists(s);
    forall r | Live(s', r) && r in s'.info ensures Counted(s', s'.info[r]) {
      assert Live(s, r);
      KidsWithout(s.ready, s.running, s.info, s.info[r].pid);
      KidsAppend(s.blocked, s.running, s.info, s.info[r].pid);
    }
  }

  lemma WaitInv(s: State)
    requires Inv(s) && Enabled(s, DoWait)
    ensures Inv(Apply(s, DoWait))
  {
    BlockSelfLists(s);
    BlockSelfKids(s);
    RemoveCursor(s);
    TickInv(BlockSelf(s));
  }

  lemma ResumeLists(s: State, pid: nat)
    requires ListsOk(s)
    ensures ListsOk(Resume(s, pid))
    ensures forall r :: Live(Resume(s, pid), r) <==> Live(s, r)
  {
    var s', t := Resume(s, pid), FindPid(s.blocked, s.info, pid);
    if t != 0 {
      NoDupWithout(s.blocked, t);
      NoDupAppend(s.ready, t);
    }
    forall r ensures Live(s', r) <==> Live(s, r) {}
  }

  lemma ResumeKids(s: State, pid: nat, q: nat)
    ensures LiveKids(Resume(s, pid), q) == LiveKids(s, q)
  {
    var t := FindPid(s.blocked, s.info, pid);
    if t != 0 {
      KidsWithout(s.blocked, t, s.info, q);
      KidsAppend(s.ready, t, s.info, q);
    }
  }

  lemma ResumeInv(s: State, pid: nat)
    requires Inv(s)
    ensures Inv(Resume(s, pid))
  {
    var s' := Resume(s, pid);
    ResumeLists(s, pid);
    forall r | Live(s', r) && r in s'.info ensures Counted(s', s'.info[r]) {
      assert Live(s, r);
      ResumeKids(s, pid, s.info[r].pid);
    }
  }

  lemma ForkLists(s: State, c: Ref)
    requires Inv(s) && Enabled(s, DoFork(c))
    ensures ListsOk(Fork(s, c))
    ensures forall r :: Live(Fork(s, c), r) <==> Live(s, r) || r == c
  {
    var s' := Fork(s, c);
    assert !Live(s, c);
    NoDupAppend(s.ready, c);
    forall r ensures Live(s', r) <==> Live(s, r) || r == c {}
    assert Live(s, s.running);
  }

  lemma ForkPids(s: State, c: Ref)
    requires Inv(s) && Enabled(s, DoFork(c))
    ensures PidsOk(Fork(s, c))
  {
  }

  /** The child's own process id is new, so nobody has it as a parent. */
  lemma {:induction false} NoKidsYet(list: seq<Ref>, info: map<Ref, Info>, pid: nat)
    requires forall r | r in info :: info[r].parent < pid
    ensures Kids(list, info, pid) == 0
  {
    if list != [] { NoKidsYet(list[1..], info, pid); }
  }

  lemma ForkKids(s: State, c: Ref, q: nat)
    requires Inv(s) && Enabled(s, DoFork(c))
    ensures LiveKids(Fork(s, c), q) == LiveKids(s, q) + if q == s.info[s.running].pid then 1 else 0
  {
    var s' := Fork(s, c);
    assert Live(s, s.running) && !Live(s, c);
    forall r | r in s.ready ensures IsKid(r, s.info, q) == IsKid(r, s'.info, q) { assert Live(s, r); }
    forall r | r in s.blocked ensures IsKid(r, s.info, q) == IsKid(r, s'.info, q) { assert Live(s, r); }
    KidsFrame(s.ready, s.info, s'.info, q);
    KidsFrame(s.blocked, s.info, s'.info, q);
    KidsAppend(s.ready, c, s'.info, q);
  }

  lemma ForkInv(s: State, c: Ref)
    requires Inv(s) && Enabled(s, DoFork(c))
    ensures Inv(Fork(s, c))
  {
    var s' := Fork(s, c);
    ForkLists(s, c);
    ForkPids(s, c);
    forall r | Live(s', r) && r in s'.info ensures Counted(s', s'.info[r]) {
      ForkKids(s, c, s'.info[r].pid);
      if r == c {
        NoKidsYet(s.ready, s.info, s.pids);
        NoKidsYet(s.blocked, s.info, s.pids);
        assert Live(s, s.running);
      } else {
        assert Live(s, r) && Live(s, s.running);
      }
    }
  }

  lemma {:induction false} FindPidFinds(list: seq<Ref>, info: map<Ref, Info>, pid: nat, r: Ref)
    requires r in list && r in info && r != 0 && info[r].pid == pid
    requires forall x | x in info && x != r :: info[x].pid != pid
    ensures FindPid(list, info, pid) == r
  {
    if list[0] != r { FindPidFinds(list[1..], info, pid, r); }
  }

  /** The parent that is found is the live task with that process id. */
  lemma FindTaskFinds(s: State, pid: nat, r: Ref)
    requires 0 !in s.ready && 0 !in s.blocked && Live(s, r) && r in s.info && s.info[r].pid == pid
    requires forall x | x in s.info && x != r :: s.info[x].pid != pid
    ensures FindTask(s, pid) == r
  {
    if r in s.ready {
      FindPidFinds(s.ready, s.info, pid, r);
    } else {
      FindPidFinds(s.blocked, s.info, pid, r);
    }
  }

  /** What kill_proc does to the data of the tasks: it marks the dying one, and its parent,
      if that is alive, has one child less. */
  lemma KillInfo(s: State)
    requires Inv(s)
    ensures var parent := s.info[s.running].parent;
            KillSelf(s).info == (if parent == 0 then MarkDead(s) else LoseChild(MarkDead(s), parent)).info
  {
  }

  lemma LoseChildInfo(s: State, pid: nat, r: Ref)
    requires r in s.info && 0 !in s.ready && 0 !in s.blocked
    requires forall x | x in s.info && x != r :: s.info[x].pid != s.info[r].pid
    ensures var info' := LoseChild(s, pid).info;
            && info'.Keys == s.info.Keys
            && (Live(s, r) ==>
                  info'[r] == s.info[r].(childamount := s.info[r].childamount - if s.info[r].pid == pid then 1 else 0))
            && info'[r].pid == s.info[r].pid && info'[r].parent == s.info[r].parent
            && info'[r].zombie == s.info[r].zombie && info'[r].inherited == s.info[r].inherited
  {
    if Live(s, r) && s.info[r].pid == pid { FindTaskFinds(s, pid, r); }
  }

  lemma KillInfoOf(s: State, r: Ref)
    requires Inv(s) && r in s.info
    ensures var i, i' := s.info[r], KillSelf(s).info;
            && i'.Keys == s.info.Keys
            && i'[r].pid == i.pid && i'[r].parent == i.parent && i'[r].inherited == i.inherited
            && i'[r].zombie == (i.zombie || r == s.running)
            && (Live(s, r) ==>
                  i'[r].childamount == i.childamount - if i.pid == s.info[s.running].parent then 1 else 0)
  {
    NoNull(s);
    KillInfo(s);
    var parent := s.info[s.running].parent;
    if parent != 0 { LoseChildInfo(MarkDead(s), parent, r); }
  }

  lemma NotifiedLists(s: State)
    requires Inv(s)
    ensures var s1 := NotifyParent(MarkDead(s), s.info[s.running].parent);
            && NoDup(s1.ready) && NoDup(s1.blocked) && (forall r | r in s1.ready :: r !in s1.blocked)
            && (forall r :: Live(s1, r) <==> Live(s, r))
            && s.ready <= s1.ready && s1.cursor == s.cursor && s1.running == s.running
            && s1.locks == s1.failures && s1.pids == s.pids
  {
    var parent := s.info[s.running].parent;
    assert Live(s, s.running);
    if parent != 0 {
      var m := LoseChild(MarkDead(s), parent);
      var t := FindPid(m.blocked, m.info, parent);
      if t != 0 {
        NoDupWithout(m.blocked, t);
        NoDupAppend(m.ready, t);
      }
    }
  }

  lemma KillLists(s: State)
    requires Inv(s)
    ensures ListsOk(KillSelf(s)) && PidsOk(KillSelf(s))
    ensures forall r :: Live(KillSelf(s), r) <==> Live(s, r) && r != s.running
  {
    var s1 := NotifyParent(MarkDead(s), s.info[s.running].parent);
    var s' := KillSelf(s);
    NotifiedLists(s);
    NoDupWithout(s1.ready, s.running);
    forall r ensures Live(s', r) <==> Live(s, r) && r != s.running { assert Live(s1, r) <==> Live(s, r); }
    forall r | r in s.info
      ensures r in s'.info && s'.info[r].pid == s.info[r].pid && s'.info[r].parent == s.info[r].parent
      ensures s'.info[r].zombie == (s.info[r].zombie || r == s.running)
    {
      KillInfoOf(s, r);
    }
    KillInfoOf(s, s.running);
  }

  lemma KillIsKid(s: State, q: nat, r: Ref)
    requires Inv(s)
    ensures IsKid(r, KillSelf(s).info, q) == IsKid(r, s.info, q)
  {
    KillInfoOf(s, if r in s.info then r else s.running);
  }

  lemma KillKids(s: State, q: nat)
    requires Inv(s)
    ensures LiveKids(KillSelf(s), q) == LiveKids(s, q) - IsKid(s.running, s.info, q)
  {
    var parent := s.info[s.running].parent;
    var info' := KillSelf(s).info;
    var l := if parent == 0 then MarkDead(s) else LoseChild(MarkDead(s), parent);
    var s1 := if parent == 0 then l else Resume(l, parent);
    KillInfo(s);
    assert LiveKids(l, q) == LiveKids(s, q) by {
      forall r ensures IsKid(r, info', q) == IsKid(r, s.info, q) { KillIsKid(s, q, r); }
      KidsFrame(s.ready, s.info, info', q);
      KidsFrame(s.blocked, s.info, info', q);
    }
    assert LiveKids(s1, q) == LiveKids(s, q) by { ResumeKids(l, parent, q); }
    NotifiedLists(s);
    KillIsKid(s, q, s.running);
    KidsWithout(s1.ready, s.running, info', q);
  }

  lemma KillCursor(s: State)
    requires Inv(s)
    ensures KillSelf(s).cursor == 0 || KillSelf(s).cursor in KillSelf(s).ready
  {
    NotifiedLists(s);
    var s1 := NotifyParent(MarkDead(s), s.info[s.running].parent);
    assert s1.ready[0] == s.ready[0];
    RemoveCursor(s1);
  }

  lemma KillInv(s: State)
    requires Inv(s) && Enabled(s, DoKill)
    ensures Inv(Apply(s, DoKill))
  {
    var s' := KillSelf(s);
    KillLists(s);
    NotifiedLists(s);
    KillCursor(s);
    forall r | Live(s', r) && r in s'.info ensures Counted(s', s'.info[r]) {
      assert Live(s, r);
      KillInfoOf(s, r);
      KillKids(s, s.info[r].pid);
    }
    TickInv(s');
  }

  lemma StepInv(s: State, a: Action)
    requires Inv(s) && Enabled(s, a)
    ensures Inv(Apply(s, a))
  {
    match a {
      case DoTick => TickInv(s);
      case DoFork(c) => ForkInv(s, c);
      case DoWait => WaitInv(s);
      case DoKill => KillInv(s);
      case DoResume(pid) => ResumeInv(s, pid);
    }
  }

  // ---------------------------------------------------------------- whole runs

  /** `s` is reached from init_scheduler by `steps`, each enabled when it is taken. */
  ghost predicate Reaches(main: Ref, steps: seq<Action>, s: State)
    decreases |steps|
  {
    if steps == [] then s == Init(main)
    else
      var k := |steps| - 1;
      exists m :: Reaches(main, steps[..k], m) && Enabled(m, steps[k]) && s == Apply(m, steps[k])
  }

  /** In every run each live task is on exactly one list, process ids are distinct, the
      running task is ready, the cursor is null or on a ready task, every live task
      counts its live children and what its parent counted when it was forked, and the
      scheduler lock is held once for every task_resume that failed. */
  lemma {:induction false} RunInv(main: Ref, steps: seq<Action>, s: State)
    requires main != 0 && Reaches(main, steps, s)
    ensures Inv(s)
    decreases |steps|
  {
    if steps == [] {
      InitInv(main);
    } else {
      var k := |steps| - 1;
      var m :| Reaches(main, steps[..k], m) && Enabled(m, steps[k]) && s == Apply(m, steps[k]);
      RunInv(main, steps[..k], m);
      StepInv(m, steps[k]);
    }
  }

  /** task_count_all */
  function TaskCount(s: State): nat { |s.ready| + |s.blocked| }

  /** Only fork and kill change the number of tasks. */
  lemma CountConserved(s: State, a: Action)
    requires Inv(s) && Enabled(s, a)
    ensures TaskCount(Apply(s, a)) == TaskCount(s) + match a case DoFork(_) => 1 case DoKill => -1 case _ => 0
  {
    match a {
      case DoWait => NoDupWithout(s.ready, s.running);
      case DoResume(pid) => ResumeCount(s, pid);
      case DoKill =>
        var m, parent := MarkDead(s), s.info[s.running].parent;
        if parent != 0 { ResumeCount(LoseChild(m, parent), parent); }
        NotifiedLists(s);
        NoDupWithout(NotifyParent(m, parent).ready, s.running);
      case _ =>
    }
  }

  lemma ResumeCount(s: State, pid: nat)
    requires NoDup(s.blocked)
    ensures TaskCount(Resume(s, pid)) == TaskCount(s)
  {
    var t := FindPid(s.blocked, s.info, pid);
    if t != 0 { NoDupWithout(s.blocked, t); }
  }

  /** Where every task is after every step: a fork makes its child ready, a wait moves the
      running task to the blocked list, a death takes it off the lists and its parent, if
      that waits, back to the ready one, and so does a resume with the task it is for; nobody
      else moves. */
  lemma StepPlaces(s: State, a: Action, r: Ref)
    requires Inv(s) && Enabled(s, a)
    ensures var s', me := Apply(s, a), s.running;
            var woken := r in s.blocked && r in s.info && me in s.info &&
                         match a
                         case DoKill => s.info[r].pid == s.info[me].parent
                         case DoResume(pid) => s.info[r].pid == pid
                         case _ => false;
            && (r in s'.ready <==>
                  (r in s.ready && !(r == me && (a.DoWait? || a.DoKill?))) || a == DoFork(r) || woken)
            && (r in s'.blocked <==> (r in s.blocked && !woken) || (a.DoWait? && r == me))
  {
    assert Live(s, s.running);
    match a {
      case DoTick =>
      case DoFork(_) =>
      case DoWait => NoDupWithout(s.ready, s.running);
      case DoResume(pid) => ResumePlaces(s, pid, r);
      case DoKill => KillPlaces(s, r);
    }
  }

  /** The blocked task with a process id, if there is one. */
  lemma BlockedWith(s: State, pid: nat, r: Ref)
    requires Inv(s) && r in s.blocked
    ensures r in s.info && (s.info[r].pid == pid <==> FindPid(s.blocked, s.info, pid) == r)
  {
    NoNull(s);
    assert Live(s, r);
    if s.info[r].pid == pid { FindPidFinds(s.blocked, s.info, pid, r); }
  }

  lemma ResumePlaces(s: State, pid: nat, r: Ref)
    requires Inv(s)
    ensures var s', woken := Resume(s, pid), r in s.blocked && r in s.info && s.info[r].pid == pid;
            (r in s'.ready <==> r in s.ready || woken) && (r in s'.blocked <==> r in s.blocked && !woken)
  {
    NoNull(s);
    if r in s.blocked { BlockedWith(s, pid, r); }
    var t := FindPid(s.blocked, s.info, pid);
    if t != 0 { NoDupWithout(s.blocked, t); }
  }

  lemma KillPlaces(s: State, r: Ref)
    requires Inv(s) && s.running in s.info
    ensures var s', woken := KillSelf(s), r in s.blocked && r in s.info && s.info[r].pid == s.info[s.running].parent;
            && (r in s'.ready <==> (r in s.ready && r != s.running) || woken)
            && (r in s'.blocked <==> r in s.blocked && !woken)
  {
    NoNull(s);
    var parent := s.info[s.running].parent;
    var t := FindPid(s.blocked, s.info, parent);
    KillNotifies(s);
    NotifiedLists(s);
    if r in s.blocked { BlockedWith(s, parent, r); }
    if t != 0 { NoDupWithout(s.blocked, t); }
    NoDupWithout(NotifyParent(MarkDead(s), parent).ready, s.running);
    if r == s.running { assert r !in s.blocked; }
  }

  /** What a fork gives the child: the next process id, the running task as its parent, that
      one's counter of children, and the last place on the ready list.  The parent counts one
      child more, and no other task changes. */
  lemma ForkGives(s: State, c: Ref, r: Ref)
    requires Inv(s) && Enabled(s, DoFork(c))
    ensures var s', me := Apply(s, DoFork(c)), s.info[s.running];
            && s'.info.Keys == s.info.Keys + {c}
            && s'.info[c].pid == s.pids && s'.pids == s.pids + 1 && s'.info[c].parent == me.pid
            && s'.info[c].childamount == me.childamount && !s'.info[c].zombie
            && s'.ready == s.ready + [c] && s'.blocked == s.blocked && s'.running == s.running
            && (r in s.info ==>
                  s'.info[r] == s.info[r].(childamount := s.info[r].childamount + if r == s.running then 1 else 0))
  {
  }

  /** Only the process ids matter to a search. */
  lemma {:induction false} FindPidFrame(list: seq<Ref>, info: map<Ref, Info>, info': map<Ref, Info>, pid: nat)
    requires info'.Keys == info.Keys && forall r | r in info :: info'[r].pid == info[r].pid
    ensures FindPid(list, info', pid) == FindPid(list, info, pid)
  {
    if list != [] { FindPidFrame(list[1..], info, info', pid); }
  }

  /** The running task has a parent that waits. */
  predicate WakesParent(s: State) {
    && s.running in s.info && s.info[s.running].parent != 0
    && FindPid(s.blocked, s.info, s.info[s.running].parent) != 0
  }

  /** What a kill does to the lists before the dying task leaves its own, and to the lock. */
  lemma KillNotifies(s: State)
    requires s.running in s.info
    ensures var parent := s.info[s.running].parent;
            var t, s1 := FindPid(s.blocked, s.info, parent), NotifyParent(MarkDead(s), parent);
            && s1.running == s.running
            && s1.ready == (if WakesParent(s) then s.ready + [t] else s.ready)
            && s1.blocked == (if WakesParent(s) then Without(s.blocked, t) else s.blocked)
            && (s.ready != [] ==> s1.cursor == s.cursor)
            && s1.locks == s.locks + if parent != 0 && t == 0 then 1 else 0
  {
    var parent := s.info[s.running].parent;
    var l := LoseChild(MarkDead(s), parent);
    FindPidFrame(s.blocked, s.info, l.info, parent);
  }

  /** Exactly when a step keeps the scheduler lock: a resume of a process id that no blocked
      task has, and a kill that makes one because the parent does not wait. */
  lemma LockKeptIff(s: State, a: Action)
    requires Enabled(s, a)
    ensures Apply(s, a).locks == s.locks +
            match a
            case DoResume(pid) => if FindPid(s.blocked, s.info, pid) == 0 then 1 else 0
            case DoKill => if s.info[s.running].parent != 0 && !WakesParent(s) then 1 else 0
            case _ => 0
  {
    if a.DoKill? { KillNotifies(s); }
  }

  /** A child that dies while its parent is ready leaves the lock held. */
  lemma LockKeptExample()
    ensures KillSelf(Tick(Tick(Fork(Init(4), 8)))).locks == 1
  {
    var s := Tick(Tick(Fork(Init(4), 8)));
    assert s.ready == [4, 8] && s.running == 8;
    KillNotifies(s);
  }

  /** When a parent waits for a child, the child's death wakes it. */
  lemma DeathWakesParent(s: State, p: Ref)
    requires Inv(s) && p in s.blocked && s.info[p].pid == s.info[s.running].parent
    ensures p in KillSelf(s).ready && p !in KillSelf(s).blocked
  {
    NoNull(s);
    var parent := s.info[s.running].parent;
    assert Live(s, p) && Live(s, s.running);
    assert parent != 0;
    var m := MarkDead(s);
    var l := LoseChild(m, parent);
    LoseChildInfo(m, parent, p);
    forall x | x in l.info && x != p ensures l.info[x].pid != parent {
      LoseChildInfo(m, parent, x);
    }
    FindPidFinds(l.blocked, l.info, parent, p);
    NoDupWithout(l.blocked, p);
    NotifiedLists(s);
    NoDupWithout(NotifyParent(m, parent).ready, s.running);
  }

  // ---------------------------------------------------------------- round robin

  /** The tasks returned by `n` calls of get_next_from_list on an unchanging list. */
  function Turns(s: seq<Ref>, cursor: Ref, n: nat): (r: seq<Ref>)
    requires s != []
    ensures |r| == n
    decreases n
  {
    if n == 0 then []
    else
      var (next, cursor') := GetNext(s, cursor);
      [next] + Turns(s, cursor', n - 1)
  }

  function CursorAfter(s: seq<Ref>, cursor: Ref, n: nat): Ref
    requires s != []
    decreases n
  {
    if n == 0 then cursor else CursorAfter(s, GetNext(s, cursor).1, n - 1)
  }

  lemma {:induction false} TurnsSplit(s: seq<Ref>, cursor: Ref, n: nat, m: nat)
    requires s != []
    ensures Turns(s, cursor, n + m) == Turns(s, cursor, n) + Turns(s, CursorAfter(s, cursor, n), m)
    ensures CursorAfter(s, cursor, n + m) == CursorAfter(s, CursorAfter(s, cursor, n), m)
    decreases n
  {
    if n > 0 { TurnsSplit(s, GetNext(s, cursor).1, n - 1, m); }
  }

  lemma GetNextAt(s: seq<Ref>, p: nat)
    requires NoDup(s) && 0 !in s && p < |s|
    ensures GetNext(s, CursorAt(s, p)) == (s[p], CursorAt(s, p + 1))
  {
    SuccessorAt(s, p);
  }

  lemma TurnAt(s: seq<Ref>, p: nat, n: nat)
    requires NoDup(s) && 0 !in s && s != [] && p < |s| && n > 0
    ensures Turns(s, CursorAt(s, p), n) == [s[p]] + Turns(s, CursorAt(s, p + 1), n - 1)
    ensures CursorAfter(s, CursorAt(s, p), n) == CursorAfter(s, CursorAt(s, p + 1), n - 1)
  {
    GetNextAt(s, p);
  }

  /** Up to the end of the list the cursor walks in list order. */
  lemma {:induction false} TurnsForward(s: seq<Ref>, p: nat, n: nat)
    requires NoDup(s) && 0 !in s && s != [] && p + n <= |s|
    ensures Turns(s, CursorAt(s, p), n) == s[p..p + n]
    ensures CursorAfter(s, CursorAt(s, p), n) == CursorAt(s, p + n)
    decreases n
  {
    if n > 0 {
      TurnAt(s, p, n);
      TurnsForward(s, p + 1, n - 1);
      assert s[p..p + n] == [s[p]] + s[p + 1..p + n];
    }
  }

  /** A cursor that ran off the end starts again at the head. */
  lemma WrapsToHead(s: seq<Ref>, n: nat)
    requires NoDup(s) && 0 !in s && s != [] && n <= |s|
    ensures Turns(s, 0, n) == s[..n]
  {
    if n > 0 {
      TurnsForward(s, 0, n);
      assert GetNext(s, 0) == GetNext(s, s[0]);
    }
  }

  /** Round robin: from any cursor position, as many calls as there are tasks return them
      in cyclic list order, ... */
  lemma RoundRobin(s: seq<Ref>, p: nat, n: nat)
    requires NoDup(s) && 0 !in s && s != [] && p + n == |s|
    ensures Turns(s, CursorAt(s, p), n + p) == s[p..] + s[..p]
  {
    TurnsForward(s, p, n);
    TurnsSplit(s, CursorAt(s, p), n, p);
    WrapsToHead(s, p);
  }

  lemma RotationOnce(s: seq<Ref>, p: nat)
    requires NoDup(s) && p <= |s|
    ensures NoDup(s[p..] + s[..p])
    ensures forall t :: t in s[p..] + s[..p] <==> t in s
  {
    assert s == s[..p] + s[p..];
    NoDupConcat(s[..p], s[p..]);
    NoDupConcat(s[p..], s[..p]);
  }

  /** ... each exactly once. */
  lemma RoundRobinOnce(s: seq<Ref>, p: nat, turns: seq<Ref>)
    requires NoDup(s) && 0 !in s && s != [] && p <= |s|
    requires turns == Turns(s, CursorAt(s, p), |s|)
    ensures NoDup(turns) && forall t :: t in turns <==> t in s
  {
    RoundRobin(s, p, |s| - p);
    assert turns == s[p..] + s[..p];
    RotationOnce(s, p);
  }

  /** The tasks that run in `n` ticks. */
  function Ran(s: State, n: nat): seq<Ref>
    requires s.ready != []
    decreases n
  {
    if n == 0 then [] else [Tick(s).running] + Ran(Tick(s), n - 1)
  }

  lemma {:induction false} RanIsTurns(s: State, n: nat)
    requires s.ready != []
    ensures Ran(s, n) == Turns(s.ready, s.cursor, n)
    decreases n
  {
    if n > 0 { RanIsTurns(Tick(s), n - 1); }
  }

  /** Whatever run led here, ticks alone give every ready task the processor: as many of
      them as there are ready tasks are enough. */
  lemma TicksReachAll(s: State, t: Ref)
    requires Inv(s) && t in s.ready
    ensures t in Ran(s, |s.ready|)
  {
    NoNull(s);
    RanIsTurns(s, |s.ready|);
    var p := if s.cursor == 0 then |s.ready| else IndexOf(s.ready, s.cursor);
    assert s.cursor == CursorAt(s.ready, p);
    RoundRobinOnce(s.ready, p, Ran(s, |s.ready|));
  }
}
