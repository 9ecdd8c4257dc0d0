/**
 What holds without the rules of use, and exactly where the rules are needed: runs that break
 them keep the queue well formed, but a NULL entry, a 65th live task and an exit of idle each break
 the invariant.
 */
module SchedulerLimits {
  import opened Bits
  import opened RedBlackTree
  import opened ReadyQueue
  import opened Scheduler
  import opened SchedulerRuns
  import opened SchedulerSafety

  // ------------------------------------------- runs without the rules

  lemma {:induction false} SavedWf(s: Sys, x23: nat)
    requires Wf(s) && s.current != NIL && x23 < TWO64
    ensures Wf(Saved(s, x23))
  {
    assert forall i :: 0 <= i < |s.queue| ==> s.queue[i] in s.queue;
    QueueFrame(s.tasks, Saved(s, x23).tasks, s.queue, s.minV);
  }

  lemma {:induction false} BuryWf(s: Sys, t: int)
    requires Wf(s) && 0 <= t < |s.tasks| && t !in s.queue
    ensures Wf(Bury(s, t)) && Wf(Nobody(Bury(s, t)))
  {
    SetStateWf(s, t, ZOMBIE);
  }

  lemma {:induction false} UnlistWf(s: Sys, t: int)
    requires Wf(s)
    ensures Wf(s.(list := Without(s.list, t)))
  {
    WithoutInRange(s.list, |s.tasks|, t);
    WithoutDescending(s.list, t);
  }

  lemma {:induction false} CreateWf(s: Sys, entry: bool, priority: int, memory: bool, stack: bool)
    requires Wf(s)
    ensures Wf(Create(s, entry, priority, memory, stack))
  {
    var pid := LowestPid(s.pids, 1);
    if memory && pid >= 0 && stack {
      BornWf(s, pid, priority);
      var a, t := Born(s, pid, priority), |s.tasks|;
      EnqueueWf(a, t);
      var b := if entry then Enqueue(a, t) else a;
      var l := [t] + s.list;
      assert forall i :: 0 < i < |l| ==> l[i] == s.list[i - 1];
    }
  }

  // ------------------------------------------------ what every run keeps

  lemma {:induction false} ContinueEvery(s: Sys, next: int, now: nat)
    requires Every(Nobody(s)) && Typed(s) && now < TWO64
    requires (next in s.queue || next == IDLE) && (next == s.current ==> s.tasks[next].state == READY)
    ensures Continue(s, next, now).Done?
    ensures Every(Continue(s, next, now).s) && Continue(s, next, now).s.current == next
    ensures Later(s, Continue(s, next, now).s)
  {
    if next == s.current { ResumeEvery(s, next); } else { SwitchToEvery(s, next, now); }
  }

  lemma {:induction false} ResumeEvery(s: Sys, p: int)
    requires Every(Nobody(s)) && Typed(s) && s.current == p && 0 <= p && s.tasks[p].state == READY
    ensures Resume(s, p).Done? && Every(Resume(s, p).s) && Resume(s, p).s.current == p && Later(s, Resume(s, p).s)
  {
    ResumeWf(s, p);
    var r := Resume(s, p).s;
    PidsKept(s.tasks, r.tasks, s.pids);
  }

  lemma {:induction false} SwitchToEvery(s: Sys, next: int, now: nat)
    requires Every(Nobody(s)) && Typed(s) && now < TWO64 && (next in s.queue || next == IDLE)
    ensures SwitchTo(s, next, now).Done? && Every(SwitchTo(s, next, now).s) && SwitchTo(s, next, now).s.current == next
    ensures Later(s, SwitchTo(s, next, now).s)
  {
    SwitchToWf(s, next, now);
    var r := SwitchTo(s, next, now).s;
    PidsKept(s.tasks, r.tasks, s.pids);
  }

  /** Putting the current task back panics exactly when it is not idle and the queue is full. */
  lemma {:induction false} PutBackEvery(s: Sys, now: nat)
    requires Every(s) && s.current != NIL && now < TWO64
    ensures PutBack(s, s.current, now).Panic? <==> s.current != IDLE && |s.queue| == NODES
    ensures PutBack(s, s.current, now).Done? ==>
              var r := PutBack(s, s.current, now).s;
              && Every(Nobody(r)) && Typed(r) && r.current == s.current && r.tasks[r.current].state == READY
              && Later(s, r)
  {
    PutBackWf(s, s.current, now);
    if PutBack(s, s.current, now).Done? {
      PidsKept(s.tasks, PutBack(s, s.current, now).s.tasks, s.pids);
    }
  }

  /** schedule() panics exactly when a task other than idle is current and the queue is full. */
  lemma {:induction false} ScheduleEvery(s: Sys, now: nat)
    requires Every(s) && now < TWO64
    ensures Schedule(s, now).Panic? <==> s.current > 0 && |s.queue| == NODES
    ensures Schedule(s, now).Done? ==>
              Every(Schedule(s, now).s) && Schedule(s, now).s.current != NIL && Later(s, Schedule(s, now).s)
  {
    if s.current == NIL {
      NextFound(s);
      ContinueEvery(s, NextOrIdle(s), now);
    } else {
      PutBackEvery(s, now);
      if PutBack(s, s.current, now).Done? {
        var a := PutBack(s, s.current, now).s;
        NextFound(a);
        ContinueEvery(a, NextOrIdle(a), now);
      }
    }
  }

  lemma {:induction false} SavedEvery(s: Sys, x23: nat)
    requires Every(s) && s.current != NIL && x23 < TWO64
    ensures Every(Saved(s, x23)) && Later(s, Saved(s, x23))
  {
    SavedWf(s, x23);
    PidsKept(s.tasks, Saved(s, x23).tasks, s.pids);
  }

  lemma {:induction false} PreemptEvery(s: Sys, x23: nat, now1: nat, now2: nat)
    requires Every(s) && x23 < TWO64 && now1 < TWO64 && now2 < TWO64
    ensures Preempt(s, x23, now1, now2).Panic? <==> s.current > 0 && |s.queue| == NODES
    ensures Preempt(s, x23, now1, now2).Done? ==>
              var r := Preempt(s, x23, now1, now2).s; Every(r) && (s.current != NIL ==> r.current != NIL) && Later(s, r)
  {
    if s.current != NIL {
      SavedEvery(s, x23);
      var b := Saved(s, x23);
      PutBackEvery(b, now1);
      if PutBack(b, s.current, now1).Done? {
        var a := PutBack(b, s.current, now1).s;
        NextFound(a);
        PreemptGoesOn(b, now1, now2);
        LaterTrans(s, b, Preempt(s, x23, now1, now2).s);
      }
    }
  }

  lemma {:induction false} PreemptGoesOn(b: Sys, now1: nat, now2: nat)
    requires Every(b) && b.current != NIL && now1 < TWO64 && now2 < TWO64 && PutBack(b, b.current, now1).Done?
    ensures var a := PutBack(b, b.current, now1).s; var next := NextOrPrev(a);
      && Continue(a, next, now2).Done? && Every(Continue(a, next, now2).s) && next != NIL
      && Continue(a, next, now2).s.current == next && Later(b, Continue(a, next, now2).s)
  {
    PutBackEvery(b, now1);
    PutBackWf(b, b.current, now1);
    var a := PutBack(b, b.current, now1).s;
    NextFound(a);
    assert b.current != IDLE ==> b.current in a.queue;
    ContinueEvery(a, NextOrPrev(a), now2);
    LaterTrans(b, a, Continue(a, NextOrPrev(a), now2).s);
  }

  /** Burying a task that is not queued; the idle task has no identifier to give back. */
  lemma {:induction false} BuryEvery(s: Sys, t: int)
    requires Every(s) && 0 <= t < |s.tasks| && t !in s.queue && s.tasks[t].state != ZOMBIE
    ensures Every(if t == s.current then Nobody(Bury(s, t)) else Bury(s, t)) && Later(s, Bury(s, t))
  {
    BuryWf(s, t);
    if t == IDLE {
      PidsKept(s.tasks, Bury(s, t).tasks, s.pids);
    } else {
      BuriedPids(s.tasks, s.pids, t);
    }
  }

  lemma {:induction false} DequeueEvery(s: Sys, t: int)
    requires Every(s)
    ensures Every(Dequeue(s, t)) && t !in Dequeue(s, t).queue
  {
    DequeueWf(s, t);
  }

  lemma {:induction false} UnlistEvery(s: Sys, t: int)
    requires Every(s) && 0 < t < |s.tasks| && s.tasks[t].state == ZOMBIE
    ensures Every(s.(list := Without(s.list, t)))
  {
    UnlistWf(s, t);
    WithoutMembers(s.list, t);
  }

  /** A task that is taken off the queue, buried and off the list. */
  lemma {:induction false} RemovedIs(s: Sys, x: int)
    requires Every(s) && Live(s.tasks, x)
    ensures var b := Bury(Dequeue(s, x), x); Removed(s, x) == b.(list := Without(b.list, x))
  {
    if s.tasks[x].state != READY { DequeueAbsent(s, x); }
  }

  lemma {:induction false} RemovedEvery(s: Sys, t: int)
    requires Every(s) && Live(s.tasks, t)
    ensures Every(if t == s.current then Nobody(Removed(s, t)) else Removed(s, t)) && Later(s, Removed(s, t))
  {
    RemovedIs(s, t);
    DequeueEvery(s, t);
    var b := Bury(Dequeue(s, t), t);
    BuryEvery(Dequeue(s, t), t);
    UnlistEvery(if t == s.current then Nobody(b) else b, t);
  }

  lemma {:induction false} KillEvery(s: Sys, t: int, now: nat)
    requires Every(s) && NIL <= t < |s.tasks| && now < TWO64
    ensures Kill(s, t, now).Done? && Every(Kill(s, t, now).s) && Later(s, Kill(s, t, now).s)
    ensures s.current != NIL ==> Kill(s, t, now).s.current != NIL
  {
    if t != NIL && s.tasks[t].pid != 0 && s.tasks[t].state != ZOMBIE {
      RemovedEvery(s, t);
      if t == s.current {
        ScheduleEvery(Nobody(Removed(s, t)), now);
        LaterTrans(s, Nobody(Removed(s, t)), Kill(s, t, now).s);
      }
    }
  }

  lemma {:induction false} CreateEvery(s: Sys, entry: bool, priority: int, memory: bool, stack: bool)
    requires Every(s)
    ensures Every(Create(s, entry, priority, memory, stack)) && Later(s, Create(s, entry, priority, memory, stack))
    ensures Create(s, entry, priority, memory, stack).current == s.current
  {
    var pid := LowestPid(s.pids, 1);
    if memory && pid >= 0 && stack {
      BornWf(s, pid, priority);
      BornPeople(s, pid, priority);
      JoinedStays(s, entry, pid, priority);
      PeopleKept(Born(s, pid, priority).tasks, Joined(s, entry, pid, priority).tasks, [|s.tasks|] + s.list,
                 Born(s, pid, priority).pids);
      CreateWf(s, entry, priority, memory, stack);
    }
  }

  /** A newcomer changes nobody, and is not running. */
  lemma {:induction false} JoinedStays(s: Sys, entry: bool, pid: int, priority: int)
    requires Wf(s) && 0 <= pid < MAX_PID && OnlyRunning(s.tasks, s.current) && IDLE !in s.queue && 0 < |s.tasks|
    ensures var a, r := Born(s, pid, priority), Joined(s, entry, pid, priority);
      && SameStates(a.tasks, r.tasks) && Later(s, r) && OnlyRunning(r.tasks, r.current) && IDLE !in r.queue
      && r.current == s.current && r.list == [|s.tasks|] + s.list && r.pids == a.pids
  {
    BornWf(s, pid, priority);
    EnqueueWf(Born(s, pid, priority), |s.tasks|);
  }

  /** Whatever the callers do, each call keeps all of it, and that a task is current; tasks keep their
      identifiers and zombies other than idle stay zombies. The one panic there is is that of putting a
      task back on a full queue. */
  lemma {:induction false} StepEvery(s: Sys, c: Call)
    requires Every(s) && Possible(s, c)
    ensures Step(s, c).Panic? <==> (c.ScheduleCall? || c.PreemptCall?) && s.current > 0 && |s.queue| == NODES
    ensures Step(s, c).Done? ==>
              var r := Step(s, c).s; Every(r) && (s.current != NIL ==> r.current != NIL) && Later(s, r)
  {
    match c
    case CreateCall(entry, priority, memory, stack) => CreateEvery(s, entry, priority, memory, stack);
    case ExitCall(now) =>
      if s.current != NIL {
        BuryEvery(s, s.current);
        ScheduleEvery(Nobody(Bury(s, s.current)), now);
        LaterTrans(s, Nobody(Bury(s, s.current)), Exit(s, now).s);
      }
    case KillCall(t, now) => KillEvery(s, t, now);
    case ScheduleCall(now) => ScheduleEvery(s, now);
    case PreemptCall(x, n1, n2) => PreemptEvery(s, x, n1, n2);
  }

  /** Whatever the callers do, after every run only ready tasks are queued, once each, in order of
      virtual runtime and at or above the minimum, every task but a zombie is in the list, exactly the
      current task is running, no two live tasks share an identifier, and no zombie other than idle has
      come back. */
  lemma {:induction false} RunEvery(s: Sys, cs: seq<Call>)
    requires Every(s) && RunPossible(s, cs)
    ensures Run(s, cs).Done? ==>
              var r := Run(s, cs).s; Every(r) && (s.current != NIL ==> r.current != NIL) && Later(s, r)
    decreases |cs|
  {
    if cs != [] {
      StepEvery(s, cs[0]);
      if Step(s, cs[0]).Done? {
        RunEvery(Step(s, cs[0]).s, cs[1..]);
        if Run(s, cs).Done? { LaterTrans(s, Step(s, cs[0]).s, Run(s, cs).s); }
      }
    }
  }

  /** The kernel starts there. */
  lemma {:induction false} BootEvery()
    ensures Every(Boot()) && Boot().current != NIL
  {
    BootSound();
  }

  // ----------------------------------------------- exact conditions

  /** The queued tasks and the current one, apart from idle. */
  function LiveSeq(s: Sys): seq<int>
  {
    if s.current > 0 then s.queue + [s.current] else s.queue
  }

  ghost predicate AllLive(s: Sys)
  {
    |LiveSeq(s)| == LiveCount(s) && Distinct(LiveSeq(s)) && forall t :: t in LiveSeq(s) <==> Live(s.tasks, t)
  }

  /** The count is the number of live tasks. */
  lemma {:induction false} LiveCountExact(s: Sys)
    requires Inv(s)
    ensures AllLive(s)
  {}

  lemma {:induction false} LowestPidNone(pids: seq<bool>, k: nat, m: nat)
    requires LowestPid(pids, k) == -1 && k <= m < |pids|
    ensures pids[m]
    decreases |pids| - k
  {
    if k < m { LowestPidNone(pids, k + 1, m); }
  }

  /** Some identifier from `lo` on is none of the tasks'. */
  lemma {:induction false} PigeonHole(ts: seq<Task>, l: seq<int>, lo: int) returns (k: int)
    requires InRange(l, |ts|)
    ensures lo <= k <= lo + |l| && forall i :: 0 <= i < |l| ==> ts[l[i]].pid != k
    decreases |l|
  {
    k := lo;
    if i :| 0 <= i < |l| && ts[l[i]].pid == lo {
      var r := l[..i] + l[i + 1..];
      assert forall j :: 0 <= j < |r| ==> r[j] == if j < i then l[j] else l[j + 1];
      k := PigeonHole(ts, r, lo + 1);
      forall j | 0 <= j < |l| ensures ts[l[j]].pid != k {
        if j < i { assert r[j] == l[j]; } else if j > i { assert r[j - 1] == l[j]; }
      }
    }
  }

  /** A task can be created whenever its memory can be had: identifiers do not run out. */
  lemma {:induction false} PidsSuffice(s: Sys)
    requires Inv(s)
    ensures LowestPid(s.pids, 1) != -1
  {
    LiveCountExact(s);
    var l := LiveSeq(s);
    assert forall i :: 0 <= i < |l| ==> l[i] in l;
    var k := PigeonHole(s.tasks, l, 2);
    if LowestPid(s.pids, 1) == -1 {
      LowestPidNone(s.pids, 1, k);
    }
  }

  /** Creating a task keeps the invariant exactly when there is an entry point and room. */
  lemma {:induction false} CreateSoundIff(s: Sys, entry: bool, priority: int)
    requires Inv(s)
    ensures Inv(Create(s, entry, priority, true, true)) <==> entry && LiveCount(s) < NODES
  {
    PidsSuffice(s);
    var pid, t := LowestPid(s.pids, 1), |s.tasks|;
    var a, r := Born(s, pid, priority), Create(s, entry, priority, true, true);
    BornWf(s, pid, priority);
    if entry && LiveCount(s) < NODES {
      CreateSound(s, priority, true, true);
    } else {
      EnqueueWf(a, t);
      assert r.tasks[t].state == READY && t != IDLE;
    }
  }

  /** With 64 live tasks, one of them running, creating another makes the next schedule() panic. */
  lemma {:induction false} OneTooMany(s: Sys, priority: int, now: nat)
    requires Inv(s) && LiveCount(s) == NODES && s.current != IDLE && now < TWO64
    ensures Schedule(Create(s, true, priority, true, true), now).Panic?
  {
    PidsSuffice(s);
    var pid, t := LowestPid(s.pids, 1), |s.tasks|;
    BornWf(s, pid, priority);
    EnqueueWf(Born(s, pid, priority), t);
    CreateWf(s, true, priority, true, true);
    PutBackWf(Create(s, true, priority, true, true), s.current, now);
  }

  /** An exit keeps the invariant exactly unless it is idle that exits while others wait. */
  lemma {:induction false} ExitSoundIff(s: Sys, now: nat)
    requires Inv(s) && now < TWO64
    ensures Exit(s, now).Done?
    ensures Inv(Exit(s, now).s) <==> s.current != IDLE || s.queue == []
    ensures s.current == IDLE && s.queue == [] ==>
              Bury(s, IDLE).tasks[IDLE].state == ZOMBIE && Exit(s, now).s.tasks[IDLE].state == RUNNING
  {
    if s.current != IDLE {
      ExitSound(s, now);
    } else {
      IdleExits(s, now);
    }
  }

  lemma {:induction false} IdleExits(s: Sys, now: nat)
    requires Inv(s) && s.current == IDLE && now < TWO64
    ensures Exit(s, now).Done?
    ensures s.queue != [] ==> Exit(s, now).s.tasks[IDLE].state == ZOMBIE
    ensures s.queue == [] ==> Inv(Exit(s, now).s) && Exit(s, now).s.tasks[IDLE].state == RUNNING
  {
    hide QueueOk, FindByPid;
    BuryWf(s, IDLE);
    var b := Nobody(Bury(s, IDLE));
    FindNewest(b.tasks, b.list, IDLE);
    var next := NextOrIdle(b);
    assert s.queue != [] ==> next in s.queue;
    SwitchToWf(b, next, now);
    if s.queue == [] {
      PeopleKept(s.tasks, Exit(s, now).s.tasks, s.list, s.pids);
    }
  }
}
