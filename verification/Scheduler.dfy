/**
 The scheduler as a state machine on values: what each kernel call does to the tasks, the queue,
 the current task, the task list and the process identifiers (kernel/sched/sched.c,
 kernel/sched/task.c, kernel/pid.c), with the invariants every run keeps.

 Times and saved registers are inputs. Calls are atomic steps.
 */
module Scheduler {
  import opened Bits
  import opened RedBlackTree
  import opened ReadyQueue

  const MAX_PID: nat := 32768
  const IDLE: int := 0

  /** `pids[k]` says identifier `k` is taken; `list` is the task list, newest first. */
  datatype Sys = Sys(tasks: seq<Task>, queue: seq<int>, minV: nat, current: int, list: seq<int>, pids: seq<bool>)

  datatype Outcome = Panic | Done(s: Sys)

  ghost predicate Typed(s: Sys)
  {
    && InFields(s.tasks) && InRange(s.queue, |s.tasks|) && InRange(s.list, |s.tasks|)
    && NIL <= s.current < |s.tasks| && |s.pids| == MAX_PID && s.minV < TWO64
  }

  // ------------------------------------------------------- the runqueue

  /** kernel/sched/eevdf.c:207-250. */
  function Enqueue(s: Sys, t: int): (r: Sys)
    requires Typed(s) && 0 <= t < |s.tasks|
    ensures Typed(r) && |r.tasks| == |s.tasks|
  {
    if s.tasks[t].state != READY then s
    else
      var ts := Clamped(s.tasks, s.minV, t);
      if |s.queue| >= NODES then s.(tasks := ts)
      else s.(tasks := ts, queue := Placed(ts, s.queue, t))
  }

  /** kernel/sched/eevdf.c:252-356. */
  function Dequeue(s: Sys, t: int): (r: Sys)
    requires Typed(s)
    ensures Typed(r)
  {
    WithoutInRange(s.queue, |s.tasks|, t);
    s.(queue := Without(s.queue, t))
  }

  /** kernel/sched/eevdf.c:364-385. */
  function UpdateCurr(s: Sys, t: int, now: nat): (r: Sys)
    requires Typed(s) && 0 <= t < |s.tasks| && now < TWO64
    ensures Typed(r) && |r.tasks| == |s.tasks|
  {
    if Elapsed(s.tasks, t, now) == 0 then s
    else
      var ts := Charged(s.tasks, s.queue, t, now);
      s.(tasks := ts, minV := ts[if s.queue == [] then t else s.queue[0]].vruntime)
  }

  // ---------------------------------------------------------- schedule

  function SetState(s: Sys, t: int, st: State): (r: Sys)
    requires Typed(s) && 0 <= t < |s.tasks|
    ensures Typed(r)
  {
    s.(tasks := s.tasks[t := s.tasks[t].(state := st)])
  }

  /** The first task of the list with this identifier (kernel/sched/task.c:134-142). */
  function FindByPid(ts: seq<Task>, l: seq<int>, pid: int): (t: int)
    requires InRange(l, |ts|)
    ensures t == NIL || (t in l && ts[t].pid == pid)
  {
    if l == [] then NIL
    else if ts[l[0]].pid == pid then l[0]
    else FindByPid(ts, l[1..], pid)
  }

  /** Charge the running task and put it back (kernel/sched/sched.c:22-33 and 113-127). */
  function PutBack(s: Sys, p: int, now: nat): (r: Outcome)
    requires Typed(s) && 0 <= p < |s.tasks| && now < TWO64
    ensures r.Done? ==> Typed(r.s) && |r.s.tasks| == |s.tasks|
  {
    var a := SetState(UpdateCurr(s, p, now), p, READY);
    if a.tasks[p].pid == 0 then Done(a)
    else
      var b := Enqueue(a, p);
      if p !in b.queue then Panic else Done(b)
  }

  /** Stay with the same task (kernel/sched/sched.c:52-63 and 153-173). */
  function Resume(s: Sys, p: int): (r: Outcome)
    requires Typed(s) && 0 <= p < |s.tasks|
    ensures r.Done? ==> Typed(r.s) && |r.s.tasks| == |s.tasks|
  {
    if s.tasks[p].state != READY then Done(s)
    else
      var a := SetState(Dequeue(s, p), p, RUNNING);
      if p in a.queue then Panic else Done(a)
  }

  /** Make a task that is off the queue the running one (kernel/sched/sched.c:75-84 and 189-199). */
  function Start(s: Sys, next: int, now: nat): (r: Sys)
    requires Typed(s) && 0 <= next < |s.tasks| && now < TWO64
    ensures Typed(r) && |r.tasks| == |s.tasks|
  {
    var n := s.tasks[next].(state := RUNNING, x23 := now, timeSlice := SliceOf(s.tasks, s.queue, next));
    s.(tasks := s.tasks[next := n], current := next)
  }

  /** Switch to another task (kernel/sched/sched.c:65-84 and 175-199). */
  function SwitchTo(s: Sys, next: int, now: nat): (r: Outcome)
    requires Typed(s) && 0 <= next < |s.tasks| && now < TWO64
    ensures r.Done? ==> Typed(r.s) && |r.s.tasks| == |s.tasks|
  {
    var a := if s.tasks[next].pid != 0 then Dequeue(s, next) else s;
    if next in a.queue then Panic else Done(Start(a, next, now))
  }

  /** Go on with `next` (kernel/sched/sched.c:46-84 and 146-199). */
  function Continue(s: Sys, next: int, now: nat): (r: Outcome)
    requires Typed(s) && NIL <= next < |s.tasks| && now < TWO64
    ensures r.Done? ==> Typed(r.s) && |r.s.tasks| == |s.tasks|
  {
    if next == NIL then Panic
    else if next == s.current then Resume(s, next)
    else SwitchTo(s, next, now)
  }

  /** The head of the queue, or idle (kernel/sched/sched.c:42-49). */
  function NextOrIdle(s: Sys): (t: int)
    requires Typed(s)
    ensures NIL <= t < |s.tasks|
  {
    if s.queue != [] then s.queue[0] else FindByPid(s.tasks, s.list, 0)
  }

  /** kernel/sched/sched.c:10-101. */
  function Schedule(s: Sys, now: nat): (r: Outcome)
    requires Typed(s) && now < TWO64
    ensures r.Done? ==> Typed(r.s) && |r.s.tasks| == |s.tasks|
  {
    var prev := s.current;
    if prev != NIL && s.tasks[prev].state == RUNNING then
      var a := PutBack(s, prev, now);
      if a.Panic? then Panic else Continue(a.s, NextOrIdle(a.s), now)
    else if prev != NIL && s.tasks[prev].state == ZOMBIE && prev in s.queue then Panic
    else Continue(s, NextOrIdle(s), now)
  }

  /** The head of the queue, the preempted task if there is none and it may run on, or idle
      (kernel/sched/sched.c:138-151). */
  function NextOrPrev(s: Sys): (t: int)
    requires Typed(s) && s.current != NIL
    ensures NIL <= t < |s.tasks|
  {
    if s.queue == [] && s.tasks[s.current].state == READY then s.current else NextOrIdle(s)
  }

  /** The current task with the x23 of its saved registers (kernel/sched/sched.c:112). */
  function Saved(s: Sys, x23: nat): (r: Sys)
    requires Typed(s) && s.current != NIL && x23 < TWO64
    ensures Typed(r)
  {
    s.(tasks := s.tasks[s.current := s.tasks[s.current].(x23 := x23)])
  }

  /** kernel/sched/sched.c:103-202. The clock is read twice. */
  function Preempt(s: Sys, x23: nat, now1: nat, now2: nat): (r: Outcome)
    requires Typed(s) && x23 < TWO64 && now1 < TWO64 && now2 < TWO64
    ensures r.Done? ==> Typed(r.s) && |r.s.tasks| == |s.tasks|
  {
    var prev := s.current;
    if prev == NIL then Done(s)
    else if s.tasks[prev].state == RUNNING then
      var a := PutBack(Saved(s, x23), prev, now1);
      if a.Panic? then Panic else Continue(a.s, NextOrPrev(a.s), now2)
    else if s.tasks[prev].state == ZOMBIE && prev in s.queue then Panic
    else Continue(s, NextOrPrev(s), now2)
  }

  // ------------------------------------------------------ task lifetime

  /** The lowest identifier not taken, from `k` on, or -1 (kernel/pid.c:16-27). */
  function LowestPid(pids: seq<bool>, k: nat): (p: int)
    ensures p == -1 || (k <= p < |pids| && !pids[p])
    decreases |pids| - k
  {
    if k >= |pids| then -1 else if !pids[k] then k else LowestPid(pids, k + 1)
  }

  lemma {:induction false} LowestPidIs(pids: seq<bool>, k: nat)
    ensures var p := LowestPid(pids, k);
      if p == -1 then forall j :: k <= j < |pids| ==> pids[j]
      else k <= p < |pids| && !pids[p] && forall j :: k <= j < p ==> pids[j]
    decreases |pids| - k
  {
    if k < |pids| { LowestPidIs(pids, k + 1); }
  }

  /** kernel/pid.c:30-39. */
  function FreePid(pids: seq<bool>, pid: int): (r: seq<bool>)
    requires |pids| == MAX_PID
    ensures |r| == MAX_PID
  {
    if pid <= 0 || pid >= MAX_PID then pids else pids[pid := false]
  }

  function ClampNice(priority: int): (p: int)
    ensures Nice(p)
  {
    if priority < -20 then -20 else if priority > 19 then 19 else priority
  }

  /** A new task in memory with its identifier (kernel/sched/task.c:60-72). */
  function Born(s: Sys, pid: int, priority: int): (r: Sys)
    requires Typed(s) && 0 <= pid < MAX_PID
    ensures Typed(r) && |r.tasks| == |s.tasks| + 1
  {
    s.(tasks := s.tasks + [Task(pid, READY, ClampNice(priority), TIME_SLICE_NS, 0, 0)], pids := s.pids[pid := true])
  }

  /** The new task joins the queue, if it has an entry point, and the list (kernel/sched/task.c:60-105). */
  function Joined(s: Sys, entry: bool, pid: int, priority: int): (r: Sys)
    requires Typed(s) && 0 <= pid < MAX_PID
    ensures Typed(r)
  {
    var t := |s.tasks|;
    var a := Born(s, pid, priority);
    var b := if entry then Enqueue(a, t) else a;
    b.(list := [t] + b.list)
  }

  /** kernel/sched/task.c:54-108; whether the two allocations succeed and whether there is an entry
      point are inputs. The new task is the last one in memory. */
  function Create(s: Sys, entry: bool, priority: int, memory: bool, stack: bool): (r: Sys)
    requires Typed(s)
    ensures Typed(r)
  {
    var pid := LowestPid(s.pids, 1);
    if !memory || pid < 0 || !stack then s else Joined(s, entry, pid, priority)
  }

  /** The state after a task has become a zombie and lost its identifier. */
  function Bury(s: Sys, t: int): (r: Sys)
    requires Typed(s) && 0 <= t < |s.tasks|
    ensures Typed(r) && |r.tasks| == |s.tasks|
  {
    SetState(s, t, ZOMBIE).(pids := FreePid(s.pids, s.tasks[t].pid))
  }

  /** kernel/sched/task.c:110-128. */
  function Exit(s: Sys, now: nat): (r: Outcome)
    requires Typed(s) && now < TWO64
    ensures r.Done? ==> Typed(r.s) && |r.s.tasks| == |s.tasks|
  {
    if s.current == NIL then Done(s) else Schedule(Bury(s, s.current).(current := NIL), now)
  }

  /** Off the queue and the list, a zombie without an identifier (kernel/sched/task.c:158-172). */
  function Removed(s: Sys, t: int): (r: Sys)
    requires Typed(s) && 0 <= t < |s.tasks|
    ensures Typed(r) && |r.tasks| == |s.tasks|
  {
    var a := Bury(if s.tasks[t].state == READY then Dequeue(s, t) else s, t);
    WithoutInRange(a.list, |a.tasks|, t);
    a.(list := Without(a.list, t))
  }

  /** kernel/sched/task.c:144-191. */
  function Kill(s: Sys, t: int, now: nat): (r: Outcome)
    requires Typed(s) && NIL <= t < |s.tasks| && now < TWO64
    ensures r.Done? ==> Typed(r.s) && |r.s.tasks| == |s.tasks|
  {
    if t == NIL || s.tasks[t].pid == 0 || s.tasks[t].state == ZOMBIE then Done(s)
    else if t == s.current then Schedule(Removed(s, t).(current := NIL), now)
    else Done(Removed(s, t))
  }

  /** No task, and only identifier 0 taken (kernel/pid.c:8-11, kernel/sched/eevdf.c:201-205). */
  function Nothing(): (r: Sys)
    ensures Typed(r)
  {
    Sys([], [], 0, NIL, [], seq(MAX_PID, k => k == 0))
  }

  /** The first task becomes the idle task, off the queue and running (kernel/sched/task.c:44-48). */
  function MadeIdle(s: Sys, t: int): (r: Sys)
    requires Typed(s) && 0 <= t < |s.tasks|
    ensures Typed(r)
  {
    var b := Dequeue(s.(tasks := s.tasks[t := s.tasks[t].(pid := 0)]), t);
    SetState(b, t, RUNNING).(current := t)
  }

  /** kernel/sched/task.c:36-52: the idle task is created like any other and then loses its identifier
      1 for 0. */
  function Boot(): (r: Sys)
    ensures Typed(r)
  {
    var a := Create(Nothing(), true, 0, true, true);
    assert !Nothing().pids[1];
    assert |a.tasks| == 1;
    MadeIdle(a, IDLE)
  }
}
