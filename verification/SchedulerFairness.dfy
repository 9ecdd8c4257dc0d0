/**
 Fairness: who runs next after a preemption, and how long a queued task can wait.
 */
module SchedulerFairness {
  import opened Bits
  import opened RedBlackTree
  import opened ReadyQueue
  import opened Scheduler
  import opened SchedulerRuns
  import opened SchedulerSafety
  import opened SchedulerLimits

  // --------------------------------------------- the preempted task

  /** The head of the queue once the current task has been put back. */
  lemma {:induction false} HeadAfterPutBack(s: Sys, now: nat)
    requires Every(s) && s.current > 0 && now < TWO64 && PutBack(s, s.current, now).Done?
    ensures var p, q := s.current, PutBack(s, s.current, now).s.queue;
      && q != []
      && (q[0] == p <==> StaysOn(s, Elapsed(s.tasks, p, now) == 0))
      && (q[0] != p ==> s.queue != [] && q[0] == s.queue[0])
  {
    PutBackWf(s, s.current, now);
    HeadPlaced(s, now);
  }

  lemma {:induction false} HeadPlaced(s: Sys, now: nat)
    requires Wf(s) && s.current > 0 && s.tasks[s.current].pid != 0 && now < TWO64 && |s.queue| < NODES
    requires PutBack(s, s.current, now).Done?
    ensures var p, q := s.current, PutBack(s, s.current, now).s.queue;
      && q != []
      && (q[0] == p <==> StaysOn(s, Elapsed(s.tasks, p, now) == 0))
      && (q[0] != p ==> s.queue != [] && q[0] == s.queue[0])
  {
    hide Descending;
    var p := s.current;
    UpdateCurrWf(s, p, now);
    var a := SetState(UpdateCurr(s, p, now), p, READY);
    var ts := Clamped(a.tasks, a.minV, p);
    var k := PlaceAt(ts, a.queue, ts[p].vruntime);
    assert s.queue != [] ==> s.queue[0] in s.queue;
    assert PutBack(s, p, now).s.queue == a.queue[..k] + [p] + a.queue[k..];
  }

  /** A task's virtual runtime once it is enqueued. */
  function Raised(s: Sys, t: int): nat
    requires 0 <= t < |s.tasks|
  {
    if s.tasks[t].vruntime < s.minV then s.minV else s.tasks[t].vruntime
  }

  /** No other task is queued, or no time has passed and the current task's virtual runtime, raised to
      the minimum, is below all others. */
  predicate StaysOn(s: Sys, still: bool)
    requires 0 <= s.current < |s.tasks| && (s.queue != [] ==> 0 <= s.queue[0] < |s.tasks|)
  {
    s.queue == [] || (s.current != IDLE && still && Raised(s, s.current) < s.tasks[s.queue[0]].vruntime)
  }

  lemma {:induction false} ChoiceAfterPutBack(s: Sys, now: nat)
    requires Every(s) && s.current != NIL && now < TWO64 && PutBack(s, s.current, now).Done?
    ensures var a, p := PutBack(s, s.current, now).s, s.current;
      && (NextOrIdle(a) == p <==> StaysOn(s, Elapsed(s.tasks, p, now) == 0))
      && (NextOrPrev(a) == p <==> StaysOn(s, Elapsed(s.tasks, p, now) == 0))
  {
    PutBackEvery(s, now);
    NextFound(PutBack(s, s.current, now).s);
    if s.current != IDLE {
      HeadAfterPutBack(s, now);
    } else {
      PutBackWf(s, IDLE, now);
      assert s.queue != [] ==> s.queue[0] in s.queue;
    }
  }

  /** schedule() goes on with the task it interrupts exactly when no other is queued, or no time has
      passed since it was charged and its virtual runtime, raised to the minimum, is below all others.
      In particular never when another task is queued and time has passed, even if its virtual
      runtime wraps around. */
  lemma {:induction false} SameTaskNextIff(s: Sys, now: nat)
    requires Every(s) && s.current != NIL && now < TWO64
    ensures Schedule(s, now).Panic? <==> s.current != IDLE && |s.queue| == NODES
    ensures Schedule(s, now).Done? ==>
              (Schedule(s, now).s.current == s.current <==> StaysOn(s, Elapsed(s.tasks, s.current, now) == 0))
  {
    ScheduleEvery(s, now);
    PutBackEvery(s, now);
    if Schedule(s, now).Done? {
      ChoiceAfterPutBack(s, now);
      var a := PutBack(s, s.current, now).s;
      NextFound(a);
      ContinueEvery(a, NextOrIdle(a), now);
    }
  }

  /** The same for schedule_preempt(), where time counts from the saved x23. */
  lemma {:induction false} PreemptedNextIff(s: Sys, x23: nat, now1: nat, now2: nat)
    requires Every(s) && s.current != NIL && x23 < TWO64 && now1 < TWO64 && now2 < TWO64
    ensures Preempt(s, x23, now1, now2).Panic? <==> s.current != IDLE && |s.queue| == NODES
    ensures Preempt(s, x23, now1, now2).Done? ==>
              (Preempt(s, x23, now1, now2).s.current == s.current <==> StaysOn(s, now1 == x23))
  {
    PreemptEvery(s, x23, now1, now2);
    if Preempt(s, x23, now1, now2).Done? {
      SavedEvery(s, x23);
      var b := Saved(s, x23);
      SavedStays(s, x23, now1);
      PutBackEvery(b, now1);
      ChoiceAfterPutBack(b, now1);
      PreemptGoesOn(b, now1, now2);
    }
  }

  lemma {:induction false} SavedStays(s: Sys, x23: nat, now: nat)
    requires Every(s) && s.current != NIL && x23 < TWO64 && now < TWO64
    ensures var b := Saved(s, x23); StaysOn(b, Elapsed(b.tasks, b.current, now) == 0) == StaysOn(s, now == x23)
  {
    assert s.queue != [] ==> s.queue[0] in s.queue;
  }

  // ------------------------------------------------- bounded waiting

  /** How far task `u` may still run ahead of the waiting task `t`. */
  function Term(ts: seq<Task>, t: int, u: int): nat
    requires 0 <= t < |ts|
  {
    if u == t || !Live(ts, u) || ts[u].vruntime > ts[t].vruntime then 0 else ts[t].vruntime - ts[u].vruntime + 1
  }

  function Terms(ts: seq<Task>, t: int, n: nat): nat
    requires 0 <= t < |ts| && n <= |ts|
  {
    if n == 0 then 0 else Terms(ts, t, n - 1) + Term(ts, t, n - 1)
  }

  /** The sum of `v_t - v_u + 1` over the other live tasks `u` that are not ahead of `t`. */
  function Debt(s: Sys, t: int): nat
    requires 0 <= t < |s.tasks|
  {
    Terms(s.tasks, t, |s.tasks|)
  }

  lemma {:induction false} TermsCover(ts: seq<Task>, t: int, n: nat, u: int)
    requires 0 <= t < |ts| && n <= |ts| && 0 <= u < n
    ensures Term(ts, t, u) <= Terms(ts, t, n)
    decreases n
  {
    if u < n - 1 { TermsCover(ts, t, n - 1, u); }
  }

  /** Nobody came to life, no virtual runtime went down, the waiting task's did not move. */
  ghost predicate Progress(ts: seq<Task>, ts': seq<Task>, t: int)
  {
    && |ts'| == |ts| && 0 <= t < |ts| && ts'[t].vruntime == ts[t].vruntime
    && forall u :: 0 < u < |ts| ==>
         (ts[u].state == ZOMBIE ==> ts'[u].state == ZOMBIE) && ts[u].vruntime <= ts'[u].vruntime
  }

  /** Task `x` was charged or is gone. */
  predicate Paid(ts: seq<Task>, ts': seq<Task>, x: int)
    requires |ts'| == |ts| && 0 <= x < |ts|
  {
    ts'[x].state == ZOMBIE || ts[x].vruntime < ts'[x].vruntime
  }

  lemma {:induction false} TermsFall(ts: seq<Task>, ts': seq<Task>, t: int, x: int, n: nat)
    requires Progress(ts, ts', t) && 0 <= x < |ts| && n <= |ts|
    ensures Terms(ts', t, n) <= Terms(ts, t, n)
    ensures x < n && Paid(ts, ts', x) && Term(ts, t, x) > 0 ==> Terms(ts', t, n) < Terms(ts, t, n)
    decreases n
  {
    if n > 0 {
      TermsFall(ts, ts', t, x, n - 1);
      assert n > 1 ==> ts[n - 1].vruntime <= ts'[n - 1].vruntime;
    }
  }

  /** The current task, not idle, is not ahead of `t`. */
  predicate Behind(s: Sys, t: int)
    requires 0 <= t < |s.tasks| && 0 <= s.current < |s.tasks|
  {
    s.current != IDLE && s.tasks[s.current].vruntime <= s.tasks[t].vruntime
  }

  /** The charge of the current task adds at least 1 and does not wrap. */
  predicate Charges(s: Sys, now: nat)
    requires Typed(s) && 0 <= s.current
  {
    s.current == IDLE || (1 <= ChargeOf(s.tasks, s.queue, s.current, now)
      && s.tasks[s.current].vruntime + ChargeOf(s.tasks, s.queue, s.current, now) < TWO64)
  }

  lemma {:induction false} NoTimeNoCharge(load: nat)
    ensures Fair(0, load) == 0
  {}

  lemma {:induction false} ChargeRaises(s: Sys, t: int, now: nat)
    requires Typed(s) && 0 <= t < |s.tasks| && now < TWO64
    requires 1 <= ChargeOf(s.tasks, s.queue, t, now) && s.tasks[t].vruntime + ChargeOf(s.tasks, s.queue, t, now) < TWO64
    ensures UpdateCurr(s, t, now).tasks[t].vruntime == s.tasks[t].vruntime + ChargeOf(s.tasks, s.queue, t, now)
  {
    NoTimeNoCharge(LoadOf(s.tasks, s.queue));
    assert Elapsed(s.tasks, t, now) != 0;
    var v := s.tasks[t].vruntime + ChargeOf(s.tasks, s.queue, t, now);
    assert v % TWO64 == v;
  }

  lemma {:induction false} PutBackRaises(s: Sys, p: int, now: nat)
    requires Typed(s) && 0 <= p < |s.tasks| && now < TWO64 && PutBack(s, p, now).Done?
    ensures UpdateCurr(s, p, now).tasks[p].vruntime <= PutBack(s, p, now).s.tasks[p].vruntime
  {
    var a := SetState(UpdateCurr(s, p, now), p, READY);
    var b := Enqueue(a, p);
    assert a.tasks[p].vruntime <= b.tasks[p].vruntime;
  }

  /** Putting the current task back panics or raises its virtual runtime. */
  lemma {:induction false} PutBackPaid(s: Sys, now: nat)
    requires Every(s) && s.current > 0 && now < TWO64 && Charges(s, now) && PutBack(s, s.current, now).Done?
    ensures s.tasks[s.current].vruntime < PutBack(s, s.current, now).s.tasks[s.current].vruntime
  {
    ChargeRaises(s, s.current, now);
    PutBackRaises(s, s.current, now);
  }

  /** After a choice: the waiting task is chosen, or waits on behind a task that is not ahead of it. */
  ghost predicate Chosen(s: Sys, r: Sys, t: int)
  {
    && Every(r) && r.current != NIL && Progress(s.tasks, r.tasks, t)
    && (r.current == t || (t in r.queue && Behind(r, t)))
  }

  /** Going on with the head of the queue. */
  lemma {:induction false} HeadPicked(a: Sys, now: nat, t: int)
    requires Every(Nobody(a)) && Typed(a) && t in a.queue && now < TWO64
    ensures Continue(a, a.queue[0], now).Done?
    ensures Chosen(a, Continue(a, a.queue[0], now).s, t)
  {
    hide PidsOk, Listed, Descending, QueueOk, Continue;
    var next := a.queue[0];
    assert next in a.queue;
    ContinueEvery(a, next, now);
    HeadAhead(a, now, t);
  }

  lemma {:induction false} HeadAhead(a: Sys, now: nat, t: int)
    requires Wf(Nobody(a)) && Typed(a) && t in a.queue && now < TWO64 && IDLE !in a.queue
    requires Continue(a, a.queue[0], now).Done?
    ensures var next, r := a.queue[0], Continue(a, a.queue[0], now).s;
      Progress(a.tasks, r.tasks, t) && r.current == next && (next == t || (t in r.queue && Behind(r, t)))
  {
    hide Descending;
    var next := a.queue[0];
    assert next in a.queue;
    if next == a.current { ResumeWf(a, next); } else { SwitchToWf(a, next, now); }
    var k :| 0 <= k < |a.queue| && a.queue[k] == t;
    assert a.tasks[next].vruntime <= a.tasks[t].vruntime;
  }

  lemma {:induction false} ProgressTrans(a: seq<Task>, b: seq<Task>, c: seq<Task>, t: int)
    requires Progress(a, b, t) && Progress(b, c, t)
    ensures Progress(a, c, t)
    ensures forall x :: 0 < x < |a| && Paid(a, b, x) ==> Paid(a, c, x)
  {}

  lemma {:induction false} PutBackProgress(s: Sys, now: nat, t: int)
    requires Every(s) && s.current != NIL && t in s.queue && now < TWO64 && Charges(s, now)
    requires PutBack(s, s.current, now).Done?
    ensures var a := PutBack(s, s.current, now).s;
      && Every(Nobody(a)) && Typed(a) && t in a.queue && a.current == s.current && Progress(s.tasks, a.tasks, t)
      && (s.current != IDLE ==> Paid(s.tasks, a.tasks, s.current))
  {
    PutBackEvery(s, now);
    PutBackWf(s, s.current, now);
    if s.current != IDLE { PutBackPaid(s, now); }
  }

  lemma {:induction false} ScheduleChooses(s: Sys, now: nat, t: int)
    requires Every(s) && s.current != NIL && t in s.queue && now < TWO64 && Charges(s, now) && Schedule(s, now).Done?
    ensures Chosen(s, Schedule(s, now).s, t)
    ensures s.current != IDLE ==> Paid(s.tasks, Schedule(s, now).s.tasks, s.current)
  {
    PutBackProgress(s, now, t);
    var a := PutBack(s, s.current, now).s;
    HeadPicked(a, now, t);
    ProgressTrans(s.tasks, a.tasks, Continue(a, a.queue[0], now).s.tasks, t);
  }

  lemma {:induction false} SameProgress(s: Sys, x23: nat, ts: seq<Task>, t: int)
    requires Typed(s) && s.current != NIL && x23 < TWO64 && Progress(Saved(s, x23).tasks, ts, t)
    ensures Progress(s.tasks, ts, t) && Paid(Saved(s, x23).tasks, ts, s.current) == Paid(s.tasks, ts, s.current)
  {}

  lemma {:induction false} PreemptChooses(s: Sys, x23: nat, now1: nat, now2: nat, t: int)
    requires Every(s) && s.current != NIL && t in s.queue && x23 < TWO64 && now1 < TWO64 && now2 < TWO64
    requires Charges(Saved(s, x23), now1) && Preempt(s, x23, now1, now2).Done?
    ensures Chosen(s, Preempt(s, x23, now1, now2).s, t)
    ensures s.current != IDLE ==> Paid(s.tasks, Preempt(s, x23, now1, now2).s.tasks, s.current)
  {
    SavedEvery(s, x23);
    var b := Saved(s, x23);
    PutBackProgress(b, now1, t);
    var a := PutBack(b, s.current, now1).s;
    HeadPicked(a, now2, t);
    ProgressTrans(b.tasks, a.tasks, Continue(a, a.queue[0], now2).s.tasks, t);
    SameProgress(s, x23, Continue(a, a.queue[0], now2).s.tasks, t);
  }

  /** Taking another task out of the system. */
  lemma {:induction false} BuryProgress(s: Sys, x: int, t: int)
    requires Every(s) && t in s.queue && 0 <= x < |s.tasks| && x != t
    ensures var b := Bury(Dequeue(s, x), x);
      && t in b.queue && Progress(s.tasks, b.tasks, t) && Paid(s.tasks, b.tasks, x)
      && forall u :: 0 <= u < |s.tasks| && u != x ==> b.tasks[u] == s.tasks[u]
  {
    DequeueWf(s, x);
  }

  lemma {:induction false} VacatedChooses(s: Sys, now: nat, t: int)
    requires Every(s) && s.current == NIL && t in s.queue && now < TWO64
    ensures Schedule(s, now).Done? && Chosen(s, Schedule(s, now).s, t)
  {
    HeadPicked(s, now, t);
  }

  lemma {:induction false} ExitChooses(s: Sys, now: nat, t: int)
    requires Every(s) && s.current != NIL && t in s.queue && now < TWO64
    ensures Exit(s, now).Done? && Chosen(s, Exit(s, now).s, t)
    ensures s.current != IDLE ==> Paid(s.tasks, Exit(s, now).s.tasks, s.current)
  {
    BuryEvery(s, s.current);
    DequeueAbsent(s, s.current);
    BuryProgress(s, s.current, t);
    var b := Nobody(Bury(s, s.current));
    VacatedChooses(b, now, t);
    ProgressTrans(s.tasks, b.tasks, Schedule(b, now).s.tasks, t);
  }

  lemma {:induction false} KillChooses(s: Sys, x: int, now: nat, t: int)
    requires Every(s) && s.current != NIL && Live(s.tasks, x) && x != t && t in s.queue && now < TWO64
    ensures Kill(s, x, now).Done? && Every(Kill(s, x, now).s) && Progress(s.tasks, Kill(s, x, now).s.tasks, t)
    ensures x == s.current ==> Chosen(s, Kill(s, x, now).s, t) && Paid(s.tasks, Kill(s, x, now).s.tasks, x)
    ensures x != s.current ==>
              var r := Kill(s, x, now).s;
              r.current == s.current && t in r.queue && r.tasks[r.current] == s.tasks[r.current]
  {
    KillEvery(s, x, now);
    RemovedIs(s, x);
    BuryProgress(s, x, t);
    if x == s.current {
      var c := Nobody(Removed(s, x));
      RemovedEvery(s, x);
      VacatedChooses(c, now, t);
      ProgressTrans(s.tasks, c.tasks, Schedule(c, now).s.tasks, t);
    }
  }

  // ------------------------------------------------------------ whole runs

  /** A call of a run in which `t` waits: no creation, no kill of `t`, every charge at least 1 and not
      wrapping. */
  ghost predicate Patient(s: Sys, c: Call, t: int)
    requires Typed(s) && 0 <= s.current
  {
    && Possible(s, c) && !c.CreateCall? && !(c.KillCall? && c.t == t)
    && (c.ScheduleCall? ==> Charges(s, c.now))
    && (c.PreemptCall? ==> Charges(Saved(s, c.x23), c.now1))
  }

  /** A call that chooses which task runs on. */
  predicate Chooses(s: Sys, c: Call)
  {
    c.ScheduleCall? || c.PreemptCall? || c.ExitCall? || (c.KillCall? && c.t == s.current != IDLE)
  }

  lemma {:induction false} PatientStep(s: Sys, c: Call, t: int)
    requires Every(s) && s.current != NIL && t in s.queue && Patient(s, c, t) && Step(s, c).Done?
    ensures Every(Step(s, c).s) && Step(s, c).s.current != NIL && Progress(s.tasks, Step(s, c).s.tasks, t)
    ensures Chooses(s, c) ==>
              Chosen(s, Step(s, c).s, t) && (s.current != IDLE ==> Paid(s.tasks, Step(s, c).s.tasks, s.current))
    ensures !Chooses(s, c) ==> t in Step(s, c).s.queue && Behind(Step(s, c).s, t) == Behind(s, t)
  {
    match c
    case ExitCall(now) => ExitChooses(s, now, t);
    case KillCall(x, now) => if Live(s.tasks, x) { KillChooses(s, x, now, t); }
    case ScheduleCall(now) => ScheduleChooses(s, now, t);
    case PreemptCall(x, n1, n2) => PreemptChooses(s, x, n1, n2, t);
  }

  /** `t` is not the current task at any point of the run. */
  ghost predicate NeverRuns(s: Sys, cs: seq<Call>, t: int)
    requires RunPossible(s, cs)
    decreases |cs|
  {
    s.current != t && (cs != [] && Step(s, cs[0]).Done? ==> NeverRuns(Step(s, cs[0]).s, cs[1..], t))
  }

  ghost predicate RunPatient(s: Sys, cs: seq<Call>, t: int)
    requires RunPossible(s, cs)
    decreases |cs|
  {
    cs != [] ==>
      0 <= s.current && Patient(s, cs[0], t) && (Step(s, cs[0]).Done? ==> RunPatient(Step(s, cs[0]).s, cs[1..], t))
  }

  /** How many calls of the run choose which task runs on. */
  ghost function Choices(s: Sys, cs: seq<Call>): nat
    requires RunPossible(s, cs)
    decreases |cs|
  {
    if cs == [] || Step(s, cs[0]).Panic? then 0
    else (if Chooses(s, cs[0]) then 1 else 0) + Choices(Step(s, cs[0]).s, cs[1..])
  }

  lemma {:induction false} DebtPaid(s: Sys, c: Call, t: int)
    requires Every(s) && s.current != NIL && t in s.queue && Patient(s, c, t) && Step(s, c).Done?
    ensures Every(Step(s, c).s) && Step(s, c).s.current != NIL && |Step(s, c).s.tasks| == |s.tasks|
    ensures var r := Step(s, c).s;
      && Debt(r, t) <= Debt(s, t)
      && (Chooses(s, c) && Behind(s, t) ==> Debt(r, t) < Debt(s, t))
      && (r.current != t ==> t in r.queue)
      && (r.current != t ==> Behind(r, t) == (Chooses(s, c) || Behind(s, t)))
  {
    hide QueueOk, PidsOk, Listed;
    PatientStep(s, c, t);
    var r := Step(s, c).s;
    TermsFall(s.tasks, r.tasks, t, s.current, |s.tasks|);
  }

  lemma {:induction false} BehindOwes(s: Sys, t: int)
    requires Every(s) && s.current != NIL && t in s.queue && Behind(s, t)
    ensures Debt(s, t) >= 1
  {
    TermsCover(s.tasks, t, |s.tasks|, s.current);
  }

  /** In every state of every run: while a queued task waits, others are chosen at most as often as its
      debt says. A panic ends the count. */
  lemma {:induction false} WaitIsBounded(s: Sys, cs: seq<Call>, t: int)
    requires Every(s) && s.current != NIL && t in s.queue
    requires RunPossible(s, cs) && RunPatient(s, cs, t) && NeverRuns(s, cs, t)
    ensures Choices(s, cs) <= Debt(s, t)
    ensures Behind(s, t) ==> Choices(s, cs) < Debt(s, t)
    decreases |cs|
  {
    if Behind(s, t) { BehindOwes(s, t); }
    if cs != [] && Step(s, cs[0]).Done? {
      DebtPaid(s, cs[0], t);
      WaitIsBounded(Step(s, cs[0]).s, cs[1..], t);
    }
  }

  /** So it runs after some call of the run, at the latest the one that makes choice `Debt + 1`. */
  lemma {:induction false} RunsWithinDebt(s: Sys, cs: seq<Call>, t: int) returns (k: nat)
    requires Every(s) && s.current != NIL && t in s.queue && RunPossible(s, cs) && RunPatient(s, cs, t)
    requires Choices(s, cs) >= Debt(s, t) + 1
    ensures k <= |cs| && RunPossible(s, cs[..k]) && Run(s, cs[..k]).Done? && Run(s, cs[..k]).s.current == t
  {
    if NeverRuns(s, cs, t) { WaitIsBounded(s, cs, t); }
    k := RunsAt(s, cs, t);
  }

  lemma {:induction false} RunsAt(s: Sys, cs: seq<Call>, t: int) returns (k: nat)
    requires RunPossible(s, cs) && !NeverRuns(s, cs, t)
    ensures k <= |cs| && RunPossible(s, cs[..k]) && Run(s, cs[..k]).Done? && Run(s, cs[..k]).s.current == t
    decreases |cs|
  {
    k := 0;
    if s.current != t {
      k := RunsAt(Step(s, cs[0]).s, cs[1..], t);
      k := k + 1;
      assert cs[..k][1..] == cs[1..][..k - 1];
    }
  }
}
