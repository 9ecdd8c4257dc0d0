/**
 What each call does to tasks, times and queue, said without the functions that compute it: charges and
 slices, from when a task is charged, who runs next, and what creating, killing and exiting leave.
 */
module SchedulerEffects {
  import opened Bits
  import opened RedBlackTree
  import opened ReadyQueue
  import opened Scheduler
  import opened SchedulerRuns
  import opened SchedulerSafety
  import opened SchedulerLimits

  // ------------------------------------------------------------ charges

  /** What a task is charged is its time since the last charge times 1024 over the weights queued, rounded
      down: an interval of L / 1024 nanoseconds adds one, for queued weights L. */
  lemma {:induction false} ChargeIsFair(s: Sys, t: int, now: nat)
    requires Typed(s) && 0 <= t < |s.tasks| && now < TWO64
    ensures IsCharge(s.tasks[t], UpdateCurr(s, t, now).tasks[t], LoadOf(s.tasks, s.queue), s.queue == [], now)
    ensures forall u :: 0 <= u < |s.tasks| && u != t ==> UpdateCurr(s, t, now).tasks[u] == s.tasks[u]
  {
    hide IsCharge;
    ChargedIs(s.tasks, s.queue, t, now);
  }

  /** When a charge is made, the minimum becomes the lowest virtual runtime queued, or the task's own. */
  lemma {:induction false} MinimumIsLowest(s: Sys, t: int, now: nat)
    requires Wf(s) && 0 <= t < |s.tasks| && t !in s.queue && now < TWO64 && s.tasks[t].x23 != now
    ensures var r := UpdateCurr(s, t, now);
      if s.queue == [] then r.minV == r.tasks[t].vruntime
      else
        && (exists i :: 0 <= i < |s.queue| && r.minV == r.tasks[s.queue[i]].vruntime)
        && forall i :: 0 <= i < |s.queue| ==> r.minV <= r.tasks[s.queue[i]].vruntime
  {
    UpdateCurrWf(s, t, now);
    if s.queue != [] { assert UpdateCurr(s, t, now).minV == UpdateCurr(s, t, now).tasks[s.queue[0]].vruntime; }
  }

  /** An enqueued task's virtual runtime is raised to the minimum if it is below, and nothing else of it
      changes. */
  lemma {:induction false} EnqueueRaises(s: Sys, t: int)
    requires Typed(s) && 0 <= t < |s.tasks| && s.tasks[t].state == READY
    ensures var u, v := s.tasks[t], Enqueue(s, t).tasks[t];
      v == u.(vruntime := v.vruntime) && v.vruntime == if u.vruntime < s.minV then s.minV else u.vruntime
  {}

  // -------------------------------------------------- from when time counts

  /** Putting a task back charges it up to now. */
  lemma {:induction false} PutBackCounts(s: Sys, p: int, now: nat)
    requires Typed(s) && 0 <= p < |s.tasks| && now < TWO64 && PutBack(s, p, now).Done?
    ensures PutBack(s, p, now).s.tasks[p].x23 == now
  {
    ChargeIsFair(s, p, now);
    var a := SetState(UpdateCurr(s, p, now), p, READY);
    EnqueueRaises(a, p);
  }

  /** The current task has the slice that is due to it beside the queued ones. */
  ghost predicate NewSlice(s: Sys)
    requires Typed(s) && s.current != NIL
  {
    var t := s.tasks[s.current];
    IsSlice(t.timeSlice, Weight(t.priority), LoadOf(s.tasks, s.queue), s.queue == [])
  }

  /** Task `p` has been charged from `since` to `now` and, unless it is idle, raised to the minimum. */
  ghost predicate Billed(s: Sys, r: Sys, p: int, since: nat, now: nat)
    requires Typed(s) && 0 <= p < |s.tasks| == |r.tasks|
  {
    exists v: Task ::
      && IsCharge(s.tasks[p].(x23 := since), v, LoadOf(s.tasks, s.queue), s.queue == [], now)
      && r.tasks[p].vruntime == if p != IDLE && v.vruntime < r.minV then r.minV else v.vruntime
  }

  lemma {:induction false} PutBackBills(s: Sys, now: nat)
    requires Every(s) && s.current != NIL && now < TWO64 && PutBack(s, s.current, now).Done?
    ensures Billed(s, PutBack(s, s.current, now).s, s.current, s.tasks[s.current].x23, now)
  {
    var p := s.current;
    ChargeIsFair(s, p, now);
    assert s.tasks[p] == s.tasks[p].(x23 := s.tasks[p].x23);
    EnqueueRaises(SetState(UpdateCurr(s, p, now), p, READY), p);
  }

  /** Going on changes no virtual runtime. */
  lemma {:induction false} ContinueBills(s: Sys, next: int, now: nat, p: int)
    requires Typed(s) && NIL <= next < |s.tasks| && now < TWO64 && Continue(s, next, now).Done? && 0 <= p < |s.tasks|
    ensures Continue(s, next, now).s.tasks[p].vruntime == s.tasks[p].vruntime && Continue(s, next, now).s.minV == s.minV
  {}

  /** schedule() charges the task it interrupts from its last charge on. */
  lemma {:induction false} ScheduleBills(s: Sys, now: nat)
    requires Every(s) && s.current != NIL && now < TWO64 && Schedule(s, now).Done?
    ensures Billed(s, Schedule(s, now).s, s.current, s.tasks[s.current].x23, now)
  {
    PutBackBills(s, now);
    var a := PutBack(s, s.current, now).s;
    ContinueBills(a, NextOrIdle(a), now, s.current);
  }

  /** schedule_preempt() charges it from the x23 of its saved registers on. */
  lemma {:induction false} PreemptBills(s: Sys, x23: nat, now1: nat, now2: nat)
    requires Every(s) && s.current != NIL && x23 < TWO64 && now1 < TWO64 && now2 < TWO64
    requires Preempt(s, x23, now1, now2).Done?
    ensures Billed(s, Preempt(s, x23, now1, now2).s, s.current, x23, now1)
  {
    hide Continue, PidsOk, QueueOk;
    SavedEvery(s, x23);
    var b := Saved(s, x23);
    PutBackBills(b, now1);
    LoadFrame(s.tasks, b.tasks, s.queue);
    var a := PutBack(b, b.current, now1).s;
    ContinueBills(a, NextOrPrev(a), now2, s.current);
  }

  /** Going on with another task counts from now and gives it a slice; staying on counts on. */
  lemma {:induction false} ContinueCounts(s: Sys, next: int, now: nat)
    requires Every(Nobody(s)) && Typed(s) && now < TWO64 && 0 <= next < |s.tasks| && Continue(s, next, now).Done?
    ensures var r := Continue(s, next, now).s;
      && Typed(r) && r.current == next && r.tasks[next].x23 == (if next == s.current then s.tasks[next].x23 else now)
      && (next != s.current ==> NewSlice(r))
  {
    hide IsSlice, LoadOf, Weight;
    if next != s.current {
      DequeueWf(Nobody(s), next);
      var a := if s.tasks[next].pid != 0 then Dequeue(s, next) else s;
      SliceIs(a.tasks, a.queue, next);
      LoadFrame(a.tasks, Start(a, next, now).tasks, a.queue);
    }
  }

  /** After schedule() the current task's time counts from the call, whether it was switched to or stays;
      one that was switched to has a new slice. */
  lemma {:induction false} ScheduleCounts(s: Sys, now: nat, later: nat)
    requires Every(s) && now < TWO64 && Schedule(s, now).Done?
    ensures var r := Schedule(s, now).s;
      && 0 <= r.current < |r.tasks| && Elapsed(r.tasks, r.current, later) == (later - now) % 0x1_0000_0000_0000_0000
      && (r.current != s.current ==> NewSlice(r))
  {
    hide PutBack, Continue, NewSlice, PidsOk, QueueOk;
    ScheduleEvery(s, now);
    var a := s;
    if s.current != NIL {
      PutBackEvery(s, now);
      PutBackCounts(s, s.current, now);
      a := PutBack(s, s.current, now).s;
    }
    NextFound(a);
    ContinueCounts(a, NextOrIdle(a), now);
  }

  /** After schedule_preempt() it counts from the second reading of the clock if the task was switched to,
      and from the first if it stays. */
  lemma {:induction false} PreemptCounts(s: Sys, x23: nat, now1: nat, now2: nat, later: nat)
    requires Every(s) && s.current != NIL && x23 < TWO64 && now1 < TWO64 && now2 < TWO64
    requires Preempt(s, x23, now1, now2).Done?
    ensures var r := Preempt(s, x23, now1, now2).s;
      && 0 <= r.current < |r.tasks|
      && (var since := if r.current == s.current then now1 else now2;
          Elapsed(r.tasks, r.current, later) == (later - since) % 0x1_0000_0000_0000_0000)
      && (r.current != s.current ==> NewSlice(r))
  {
    hide PutBack, Continue, NewSlice, PidsOk, QueueOk;
    SavedEvery(s, x23);
    var b := Saved(s, x23);
    PutBackEvery(b, now1);
    PutBackCounts(b, b.current, now1);
    var a := PutBack(b, b.current, now1).s;
    NextFound(a);
    ContinueCounts(a, NextOrPrev(a), now2);
  }

  // -------------------------------------------------------- who runs next

  /** The current task and the queued ones are the same as before, and the current one is at or below all
      queued ones; idle runs only if none is queued. */
  ghost predicate LowestRuns(s: Sys, r: Sys)
  {
    && NIL < r.current < |r.tasks| && InRange(r.queue, |r.tasks|)
    && (forall x :: x > 0 ==> (x in r.queue || x == r.current <==> x in s.queue || x == s.current))
    && (forall i :: 0 <= i < |r.queue| ==>
          r.current != IDLE && r.tasks[r.current].vruntime <= r.tasks[r.queue[i]].vruntime)
  }

  lemma {:induction false} ContinueLowest(s: Sys, next: int, now: nat)
    requires Every(Nobody(s)) && Typed(s) && now < TWO64
    requires if s.queue == [] then next == IDLE else next == s.queue[0]
    requires next == s.current ==> s.tasks[next].state == READY
    ensures Continue(s, next, now).Done?
    ensures LowestRuns(Nobody(s), Continue(s, next, now).s)
  {
    assert s.queue != [] ==> s.queue[0] in s.queue;
    ContinueEvery(s, next, now);
    if next == s.current { ResumeWf(s, next); } else { SwitchToWf(s, next, now); }
    var r := Continue(s, next, now).s;
    forall i | 0 <= i < |r.queue|
      ensures r.current != IDLE && r.tasks[r.current].vruntime <= r.tasks[r.queue[i]].vruntime
    {
      assert r.queue[i] in r.queue;
      var k :| 0 <= k < |s.queue| && s.queue[k] == r.queue[i];
    }
  }

  /** schedule() goes on with a task of lowest virtual runtime among the queued ones and the one it
      interrupts, and loses none of them. */
  lemma {:induction false} ScheduleRunsLowest(s: Sys, now: nat)
    requires Every(s) && now < TWO64 && Schedule(s, now).Done?
    ensures LowestRuns(s, Schedule(s, now).s)
  {
    if s.current == NIL {
      NextFound(s);
      ContinueLowest(s, NextOrIdle(s), now);
    } else {
      PutBackEvery(s, now);
      PutBackWf(s, s.current, now);
      var a := PutBack(s, s.current, now).s;
      NextFound(a);
      ContinueLowest(a, NextOrIdle(a), now);
    }
  }

  /** So does schedule_preempt(). */
  lemma {:induction false} PreemptRunsLowest(s: Sys, x23: nat, now1: nat, now2: nat)
    requires Every(s) && s.current != NIL && x23 < TWO64 && now1 < TWO64 && now2 < TWO64
    requires Preempt(s, x23, now1, now2).Done?
    ensures LowestRuns(s, Preempt(s, x23, now1, now2).s)
  {
    SavedEvery(s, x23);
    var b := Saved(s, x23);
    PutBackEvery(b, now1);
    PutBackWf(b, b.current, now1);
    var a := PutBack(b, b.current, now1).s;
    NextFound(a);
    assert a.queue == [] ==> a.current == IDLE;
    ContinueLowest(a, NextOrPrev(a), now2);
  }

  // ------------------------------------------------------- task lifetime

  /** What a creation leaves: nothing without memory, stack or a free identifier from 1 to 32767; else one
      more task, with the lowest free identifier, ready, at the requested nice value cut to -20 .. 19, a
      slice of 4 ms, and the newest in the list; with an entry point it has the minimal virtual runtime, and
      is queued if there is room. */
  lemma {:induction false} CreatedIs(s: Sys, entry: bool, priority: int, memory: bool, stack: bool)
    requires Every(s)
    ensures var r, t := Create(s, entry, priority, memory, stack), |s.tasks|;
      if !memory || !stack || (forall k :: 1 <= k < 32768 ==> s.pids[k]) then r == s
      else
        && |r.tasks| == t + 1 && (forall u :: 0 <= u < t ==> r.tasks[u] == s.tasks[u])
        && 1 <= r.tasks[t].pid < 32768 && !s.pids[r.tasks[t].pid] && r.pids == s.pids[r.tasks[t].pid := true]
        && (forall k :: 1 <= k < r.tasks[t].pid ==> s.pids[k])
        && r.tasks[t].state == READY && r.tasks[t].timeSlice == 4_000_000 && r.tasks[t].x23 == 0
        && r.tasks[t].priority == (if priority < -20 then -20 else if priority > 19 then 19 else priority)
        && r.tasks[t].vruntime == (if entry then s.minV else 0)
        && r.list == [t] + s.list && r.current == s.current && r.minV == s.minV
        && (forall x :: x in r.queue <==> x in s.queue || (x == t && entry && |s.queue| < 64))
  {
    LowestPidIs(s.pids, 1);
    var pid := LowestPid(s.pids, 1);
    if memory && stack && pid >= 0 {
      BornWf(s, pid, priority);
      EnqueueWf(Born(s, pid, priority), |s.tasks|);
      EnqueueRaises(Born(s, pid, priority), |s.tasks|);
    }
  }

  /** A kill of a live task makes it a zombie, off queue and list, and frees its identifier and no other; it
      touches nobody else, unless the task was current, when the lowest of the others runs. Kills of other
      tasks do nothing. */
  lemma {:induction false} KilledIs(s: Sys, t: int, now: nat)
    requires Every(s) && NIL <= t < |s.tasks| && now < TWO64
    ensures Kill(s, t, now).Done?
    ensures !Live(s.tasks, t) ==> Kill(s, t, now).s == s
    ensures Live(s.tasks, t) ==> Gone(s, Kill(s, t, now).s, t) && t !in Kill(s, t, now).s.list
    ensures Live(s.tasks, t) && t != s.current ==>
              var r := Kill(s, t, now).s;
              && r.current == s.current && r.minV == s.minV
              && (forall u :: 0 <= u < |s.tasks| && u != t ==> r.tasks[u] == s.tasks[u])
              && (forall x :: x in r.queue <==> x in s.queue && x != t)
              && (forall x :: x in r.list <==> x in s.list && x != t)
    ensures Live(s.tasks, t) && t == s.current ==> LowestRuns(Nobody(s), Kill(s, t, now).s)
  {
    KillEvery(s, t, now);
    if Live(s.tasks, t) {
      RemovedEvery(s, t);
      RemovedGone(s, t);
      if t == s.current {
        var c := Nobody(Removed(s, t));
        ScheduleRunsLowest(c, now);
        ScheduleLeaves(c, now, t);
      }
    }
  }

  /** Task `t` is a zombie off the queue and its identifier, alone, is free again. */
  ghost predicate Gone(s: Sys, r: Sys, t: int)
  {
    && 0 <= t < |s.tasks| && |r.tasks| == |s.tasks| && r.tasks[t].state == ZOMBIE && t !in r.queue && r.current != t
    && |r.pids| == |s.pids| && 0 <= s.tasks[t].pid < |s.pids|
    && forall k :: 0 <= k < |s.pids| ==> r.pids[k] == (s.pids[k] && k != s.tasks[t].pid)
  }

  lemma {:induction false} RemovedGone(s: Sys, t: int)
    requires Every(s) && Live(s.tasks, t)
    ensures var r := Removed(s, t);
      && Gone(s, r.(current := if t == s.current then NIL else s.current), t)
      && r.minV == s.minV && r.current == s.current
      && (forall u :: 0 <= u < |s.tasks| && u != t ==> r.tasks[u] == s.tasks[u])
      && (forall x :: x in r.queue <==> x in s.queue && x != t)
      && (forall x :: x in r.list <==> x in s.list && x != t)
  {
    hide StatesOk, QueueOk;
    RemovedIs(s, t);
    DequeueWf(s, t);
    WithoutMembers(s.list, t);
  }

  /** With nobody current, schedule() leaves zombies other than idle, the list and the identifiers alone. */
  lemma {:induction false} ScheduleLeaves(s: Sys, now: nat, t: int)
    requires Every(s) && s.current == NIL && now < TWO64 && 0 < t < |s.tasks| && s.tasks[t].state == ZOMBIE
    ensures Schedule(s, now).Done?
    ensures var r := Schedule(s, now).s;
      && r.pids == s.pids && r.list == s.list && |r.tasks| == |s.tasks| && r.tasks[t] == s.tasks[t] && r.current != t
      && t !in r.queue && r.minV == s.minV
  {
    NextFound(s);
    ScheduleEvery(s, now);
    SwitchToWf(s, NextOrIdle(s), now);
  }

  /** An exit makes the current task a zombie that stays in the list and frees its identifier and no other;
      the lowest of the others runs. */
  lemma {:induction false} ExitedIs(s: Sys, now: nat)
    requires Every(s) && s.current > 0 && now < TWO64
    ensures Exit(s, now).Done?
    ensures Gone(s, Exit(s, now).s, s.current) && Exit(s, now).s.list == s.list
    ensures LowestRuns(Nobody(s), Exit(s, now).s)
  {
    BuryEvery(s, s.current);
    var c := Nobody(Bury(s, s.current));
    ScheduleLeaves(c, now, s.current);
    ScheduleRunsLowest(c, now);
  }
}
