/**
 Safety over whole runs: from boot on, every sequence of calls keeps the invariants and reaches
 no panic, as long as tasks have an entry point, at most 64 live at a time and idle never exits.
 */
module SchedulerSafety {
  import opened Bits
  import opened RedBlackTree
  import opened ReadyQueue
  import opened Scheduler
  import opened SchedulerRuns

  /** How many tasks besides idle are live: the queued ones and the current one. */
  function LiveCount(s: Sys): nat
  {
    |s.queue| + (if s.current > 0 then 1 else 0)
  }

  // ------------------------------------------------- parts of a call

  lemma {:induction false} PutBackSound(s: Sys, p: int, now: nat)
    requires Inv(s) && p == s.current && now < TWO64
    ensures PutBack(s, p, now).Done?
    ensures var r := PutBack(s, p, now).s;
      && Sound(Nobody(r)) && SameRest(s, r) && |r.tasks| == |s.tasks| && r.tasks[p].state == READY
      && (forall x :: x in r.queue <==> x in s.queue || (x == p && p != IDLE)) && Later(s, r)
  {
    PutBackWf(s, p, now);
    var r := PutBack(s, p, now).s;
    PeopleKept(s.tasks, r.tasks, s.list, s.pids);
  }

  lemma {:induction false} SwitchToSound(s: Sys, next: int, now: nat)
    requires Sound(Nobody(s)) && Typed(s) && (next in s.queue || next == IDLE) && now < TWO64
    ensures SwitchTo(s, next, now).Done?
    ensures Inv(SwitchTo(s, next, now).s) && SwitchTo(s, next, now).s.current == next
    ensures Later(s, SwitchTo(s, next, now).s)
  {
    SwitchToWf(s, next, now);
    var r := SwitchTo(s, next, now).s;
    PeopleKept(s.tasks, r.tasks, s.list, s.pids);
  }

  lemma {:induction false} ResumeSound(s: Sys, p: int)
    requires Sound(Nobody(s)) && Typed(s) && s.current == p && (p in s.queue || p == IDLE)
    ensures Resume(s, p).Done?
    ensures Inv(Resume(s, p).s) && Resume(s, p).s.current == p && Later(s, Resume(s, p).s)
  {
    ResumeWf(s, p);
    var r := Resume(s, p).s;
    PeopleKept(s.tasks, r.tasks, s.list, s.pids);
  }

  lemma {:induction false} ContinueSound(s: Sys, next: int, now: nat)
    requires Sound(Nobody(s)) && Typed(s) && (next in s.queue || next == IDLE) && now < TWO64
    ensures Continue(s, next, now).Done?
    ensures Inv(Continue(s, next, now).s) && Continue(s, next, now).s.current == next
    ensures Later(s, Continue(s, next, now).s)
  {
    if next == s.current { ResumeSound(s, next); } else { SwitchToSound(s, next, now); }
  }

  /** There is always a task to go on with: the idle task is found. */
  lemma {:induction false} NextFound(s: Sys)
    requires Every(Nobody(s)) && Typed(s)
    ensures NextOrIdle(s) in s.queue || NextOrIdle(s) == IDLE
    ensures s.queue == [] ==> NextOrIdle(s) == IDLE
  {
    FindFindsLive(Nobody(s), IDLE);
  }

  // --------------------------------------------------- whole calls

  /** schedule() never panics, and afterwards one task is running and it is the current one. */
  lemma {:induction false} ScheduleSound(s: Sys, now: nat)
    requires Sound(s) && now < TWO64
    ensures Schedule(s, now).Done?
    ensures Inv(Schedule(s, now).s) && Later(s, Schedule(s, now).s)
  {
    if s.current == NIL {
      NextFound(s);
      ContinueSound(s, NextOrIdle(s), now);
    } else {
      PutBackSound(s, s.current, now);
      var a := PutBack(s, s.current, now).s;
      NextFound(a);
      ContinueSound(a, NextOrIdle(a), now);
    }
  }

  lemma {:induction false} SavedSound(s: Sys, x23: nat)
    requires Inv(s) && x23 < TWO64
    ensures Inv(Saved(s, x23)) && Later(s, Saved(s, x23))
  {
    var ts := Saved(s, x23).tasks;
    assert forall i :: 0 <= i < |s.queue| ==> s.queue[i] in s.queue;
    QueueFrame(s.tasks, ts, s.queue, s.minV);
    PeopleKept(s.tasks, ts, s.list, s.pids);
  }

  /** Neither does schedule_preempt(). */
  lemma {:induction false} PreemptSound(s: Sys, x23: nat, now1: nat, now2: nat)
    requires Inv(s) && x23 < TWO64 && now1 < TWO64 && now2 < TWO64
    ensures Preempt(s, x23, now1, now2).Done?
    ensures Inv(Preempt(s, x23, now1, now2).s) && Later(s, Preempt(s, x23, now1, now2).s)
  {
    SavedSound(s, x23);
    var b := Saved(s, x23);
    PutBackSound(b, s.current, now1);
    var a := PutBack(b, s.current, now1).s;
    NextFound(a);
    assert s.current != IDLE ==> s.current in a.queue;
    var next := NextOrPrev(a);
    ContinueSound(a, next, now2);
    LaterTrans(s, b, a);
    LaterTrans(s, a, Continue(a, next, now2).s);
  }

  /** Off the queue, a zombie, and its identifier free: sound again once it is not current either. */
  lemma {:induction false} BurySound(s: Sys, t: int)
    requires Sound(s) && Live(s.tasks, t)
    ensures Sound(Bury(Dequeue(s, t), t).(current := if t == s.current then NIL else s.current))
    ensures Later(s, Bury(Dequeue(s, t), t))
  {
    hide QueueOk, Descending;
    DequeueWf(s, t);
    var d := Dequeue(s, t);
    SetStateWf(d, t, ZOMBIE);
    BuriedPids(s.tasks, s.pids, t);
  }

  lemma {:induction false} DequeueAbsent(s: Sys, t: int)
    requires Typed(s) && t !in s.queue
    ensures Dequeue(s, t) == s
  {
    WithoutAbsent(s.queue, t);
  }

  /** A task other than idle may exit. */
  lemma {:induction false} ExitSound(s: Sys, now: nat)
    requires Inv(s) && s.current != IDLE && now < TWO64
    ensures Exit(s, now).Done?
    ensures Inv(Exit(s, now).s) && Later(s, Exit(s, now).s)
  {
    BurySound(s, s.current);
    DequeueAbsent(s, s.current);
    var b := Nobody(Bury(s, s.current));
    ScheduleSound(b, now);
    LaterTrans(s, b, Schedule(b, now).s);
  }

  lemma {:induction false} UnlistSound(s: Sys, t: int)
    requires Sound(s) && 0 < t < |s.tasks| && s.tasks[t].state == ZOMBIE
    ensures Sound(s.(list := Without(s.list, t)))
  {
    WithoutInRange(s.list, |s.tasks|, t);
    WithoutMembers(s.list, t);
    WithoutDescending(s.list, t);
  }

  lemma {:induction false} WithoutDescending(l: seq<int>, x: int)
    requires Descending(l)
    ensures Descending(Without(l, x))
  {
    if l != [] {
      var r, w := l[1..], Without(l[1..], x);
      assert forall i :: 0 <= i < |r| ==> r[i] == l[i + 1];
      WithoutDescending(r, x);
      WithoutMembers(r, x);
      forall i | 0 <= i < |w| ensures l[0] > w[i] {
        assert w[i] in w;
        var k :| 0 <= k < |r| && r[k] == w[i];
      }
    }
  }

  lemma {:induction false} KillSound(s: Sys, t: int, now: nat)
    requires Inv(s) && NIL <= t < |s.tasks| && now < TWO64
    ensures Kill(s, t, now).Done?
    ensures Inv(Kill(s, t, now).s) && Later(s, Kill(s, t, now).s)
  {
    if t != NIL && s.tasks[t].pid != 0 && s.tasks[t].state != ZOMBIE {
      BurySound(s, t);
      if s.tasks[t].state != READY { DequeueAbsent(s, t); }
      var b := Bury(Dequeue(s, t), t);
      UnlistSound(b.(current := if t == s.current then NIL else s.current), t);
      if t == s.current {
        var c := Nobody(b.(list := Without(b.list, t)));
        ScheduleSound(c, now);
        LaterTrans(s, c, Schedule(c, now).s);
      }
    }
  }

  /** A newcomer that is ready and queued. */
  lemma {:induction false} JoinedStates(ts: seq<Task>, q: seq<int>, cur: int, ts': seq<Task>, q': seq<int>)
    requires StatesOk(ts, q, cur) && |q| + (if cur > 0 then 1 else 0) < NODES
    requires |ts'| == |ts| + 1 && ts'[|ts|].state == READY && forall t :: 0 <= t < |ts| ==> ts'[t].state == ts[t].state
    requires |q'| == |q| + 1 && forall x :: x in q' <==> x in q || x == |ts|
    requires |ts| !in q
    ensures StatesOk(ts', q', cur)
  {}

  lemma {:induction false} JoinedList(ts: seq<Task>, l: seq<int>, ts': seq<Task>)
    requires Listed(ts, l) && Descending(l) && InRange(l, |ts|)
    requires |ts'| == |ts| + 1 && forall t :: 0 <= t < |ts| ==> ts'[t].state == ts[t].state
    ensures Listed(ts', [|ts|] + l) && Descending([|ts|] + l) && InRange([|ts|] + l, |ts'|)
  {
    var w := [|ts|] + l;
    assert forall i :: 0 < i < |w| ==> w[i] == l[i - 1];
  }

  lemma {:induction false} BornWf(s: Sys, pid: int, priority: int)
    requires Wf(s) && 0 <= pid < MAX_PID
    ensures Wf(Born(s, pid, priority)) && |s.tasks| !in s.queue
    ensures var ts := Born(s, pid, priority).tasks; forall t :: 0 <= t < |s.tasks| ==> ts[t] == s.tasks[t]
  {
    assert forall i :: 0 <= i < |s.queue| ==> s.queue[i] in s.queue;
    QueueFrame(s.tasks, Born(s, pid, priority).tasks, s.queue, s.minV);
  }

  lemma {:induction false} BornPeople(s: Sys, pid: int, priority: int)
    requires Every(s) && 1 <= pid < MAX_PID && !s.pids[pid]
    ensures var a := Born(s, pid, priority); PidsOk(a.tasks, a.pids) && Listed(a.tasks, [|s.tasks|] + s.list)
                                             && Descending([|s.tasks|] + s.list)
                                                && InRange([|s.tasks|] + s.list, |a.tasks|)
  {
    var n := Task(pid, READY, ClampNice(priority), TIME_SLICE_NS, 0, 0);
    CreatedPids(s.tasks, s.pids, n);
    JoinedList(s.tasks, s.list, s.tasks + [n]);
  }

  /** Creating a task with an entry point, with fewer than 64 others live. */
  lemma {:induction false} CreateSound(s: Sys, priority: int, memory: bool, stack: bool)
    requires Inv(s) && LiveCount(s) < NODES
    ensures Inv(Create(s, true, priority, memory, stack)) && Later(s, Create(s, true, priority, memory, stack))
  {
    var pid := LowestPid(s.pids, 1);
    if memory && pid >= 0 && stack {
      var a, t := Born(s, pid, priority), |s.tasks|;
      BornWf(s, pid, priority);
      BornPeople(s, pid, priority);
      EnqueueWf(a, t);
      var b := Enqueue(a, t);
      JoinedStates(s.tasks, s.queue, s.current, b.tasks, b.queue);
      PeopleKept(a.tasks, b.tasks, [t] + s.list, a.pids);
    }
  }

  // ------------------------------------------------------------- runs

  datatype Call =
    | CreateCall(entry: bool, priority: int, memory: bool, stack: bool)
    | ExitCall(now: nat)
    | KillCall(t: int, now: nat)
    | ScheduleCall(now: nat)
    | PreemptCall(x23: nat, now1: nat, now2: nat)

  /** A call with 64-bit times and a task pointer that is NULL or points to a task. */
  predicate Possible(s: Sys, c: Call)
  {
    match c
    case CreateCall(_, _, _, _) => true
    case ExitCall(now) => now < TWO64
    case KillCall(t, now) => NIL <= t < |s.tasks| && now < TWO64
    case ScheduleCall(now) => now < TWO64
    case PreemptCall(x, n1, n2) => x < TWO64 && n1 < TWO64 && n2 < TWO64
  }

  function Step(s: Sys, c: Call): (r: Outcome)
    requires Typed(s) && Possible(s, c)
    ensures r.Done? ==> Typed(r.s)
  {
    match c
    case CreateCall(entry, priority, memory, stack) => Done(Create(s, entry, priority, memory, stack))
    case ExitCall(now) => Exit(s, now)
    case KillCall(t, now) => Kill(s, t, now)
    case ScheduleCall(now) => Schedule(s, now)
    case PreemptCall(x, n1, n2) => Preempt(s, x, n1, n2)
  }

  /** What the kernel's users must keep to: entry points, at most 64 live tasks, idle never exits. */
  predicate Allowed(s: Sys, c: Call)
  {
    && Possible(s, c)
    && (c.CreateCall? ==> c.entry && LiveCount(s) < NODES)
    && (c.ExitCall? ==> s.current != IDLE)
  }

  ghost predicate RunPossible(s: Sys, cs: seq<Call>)
    decreases |cs|
  {
    Typed(s) && (cs != [] ==> Possible(s, cs[0]) && (Step(s, cs[0]).Done? ==> RunPossible(Step(s, cs[0]).s, cs[1..])))
  }

  /** The state after the calls, or the panic one of them ends in. */
  ghost function Run(s: Sys, cs: seq<Call>): (r: Outcome)
    requires RunPossible(s, cs)
    ensures r.Done? ==> Typed(r.s)
    decreases |cs|
  {
    if cs == [] then Done(s)
    else if Step(s, cs[0]).Panic? then Panic
    else Run(Step(s, cs[0]).s, cs[1..])
  }

  /** Every call keeps to the rules in the state it finds. */
  ghost predicate RunAllowed(s: Sys, cs: seq<Call>)
    requires RunPossible(s, cs)
    decreases |cs|
  {
    cs == [] || (Allowed(s, cs[0]) && (Step(s, cs[0]).Done? ==> RunAllowed(Step(s, cs[0]).s, cs[1..])))
  }

  lemma {:induction false} StepSound(s: Sys, c: Call)
    requires Inv(s) && Allowed(s, c)
    ensures Step(s, c).Done? && Inv(Step(s, c).s) && Later(s, Step(s, c).s)
  {
    match c
    case CreateCall(_, priority, memory, stack) => CreateSound(s, priority, memory, stack);
    case ExitCall(now) => ExitSound(s, now);
    case KillCall(t, now) => KillSound(s, t, now);
    case ScheduleCall(now) => ScheduleSound(s, now);
    case PreemptCall(x, n1, n2) => PreemptSound(s, x, n1, n2);
  }

  /** No run panics, and after every run exactly one task is running, it is the current one, exactly
      the ready tasks are queued, and identifiers and list are in order; tasks keep their identifiers
      and zombies stay zombies. */
  lemma {:induction false} RunSound(s: Sys, cs: seq<Call>)
    requires Inv(s) && RunPossible(s, cs) && RunAllowed(s, cs)
    ensures Run(s, cs).Done? && Inv(Run(s, cs).s) && Later(s, Run(s, cs).s)
    decreases |cs|
  {
    if cs != [] {
      StepSound(s, cs[0]);
      RunSound(Step(s, cs[0]).s, cs[1..]);
    }
  }

  /** The first task ever created gets identifier 1. */
  lemma {:induction false} FirstTask(e: Sys, n: Task)
    requires e == Nothing() && n == Task(1, READY, 0, TIME_SLICE_NS, 0, 0)
    ensures Create(e, true, 0, true, true) == Sys([n], [0], 0, NIL, [0], e.pids[1 := true])
  {
    assert LowestPid(e.pids, 1) == 1;
    assert Born(e, 1, 0).tasks == [n];
    assert Placed([n], [], 0) == [0];
  }

  /** What boot leaves: the idle task alone, running, identifier 1 lost. */
  lemma {:induction false} BootIs()
    ensures Boot() == Sys([Task(0, RUNNING, 0, TIME_SLICE_NS, 0, 0)], [], 0, IDLE, [0], Nothing().pids[1 := true])
  {
    var e := Nothing();
    FirstTask(e, Task(1, READY, 0, TIME_SLICE_NS, 0, 0));
    assert Without([0], 0) == [];
  }

  /** Boot, step by step: without memory or stack the first creation leaves nothing. */
  lemma {:induction false} BootSteps(e: Sys, memory: bool, stack: bool)
    requires e == Nothing()
    ensures Wf(e) && e.tasks == []
    ensures var a := Create(e, true, 0, memory, stack);
      if memory && stack then |a.tasks| == 1 && Boot() == MadeIdle(a, IDLE) else a == e
  {
    hide Create, MadeIdle, LowestPid;
    FirstTask(e, Task(1, READY, 0, TIME_SLICE_NS, 0, 0));
    NotCreated(e, memory, stack);
  }

  lemma {:induction false} NotCreated(s: Sys, memory: bool, stack: bool)
    requires Typed(s)
    ensures !memory || !stack ==> Create(s, true, 0, memory, stack) == s
  {}

  lemma {:induction false} AloneSound(s: Sys, t: Task)
    requires s.tasks == [t] && t.pid == 0 && t.state == RUNNING && t.priority == 0 && t.vruntime == 0 && t.x23 == 0
    requires s.queue == [] && s.minV == 0 && s.current == IDLE && s.list == [IDLE]
    requires |s.pids| == MAX_PID && forall k :: 0 <= k < MAX_PID ==> (s.pids[k] <==> k <= 1)
    ensures Inv(s)
  {
    forall k | 2 <= k < MAX_PID ensures !Held(s.tasks, k) {}
  }

  /** The kernel starts in a state that satisfies the invariant. */
  lemma {:induction false} BootSound()
    ensures Inv(Boot())
  {
    BootIs();
    AloneSound(Boot(), Boot().tasks[0]);
  }
}
