/**
 What every run of the scheduler keeps.
 */
module SchedulerRuns {
  import opened Bits
  import opened RedBlackTree
  import opened ReadyQueue
  import opened Scheduler

  // ------------------------------------------------------- invariants

  /** Only ready tasks are queued, in order and at or above the minimum, the current one is not; the
      list has every task at most once, newest first. Every run keeps this. */
  ghost predicate Wf(s: Sys)
  {
    && Typed(s) && QueueOk(s.tasks, s.queue, s.minV)
    && (forall x :: x in s.queue ==> 0 <= x < |s.tasks| && s.tasks[x].state == READY)
    && s.current !in s.queue
    && Descending(s.list)
  }

  ghost predicate Descending(l: seq<int>)
  {
    forall i, j :: 0 <= i < j < |l| ==> l[i] > l[j]
  }

  /** Exactly `cur` is running; apart from the idle task, exactly the ready tasks are queued. */
  ghost predicate StatesOk(ts: seq<Task>, q: seq<int>, cur: int)
  {
    && 0 < |ts| && OnlyRunning(ts, cur)
    && (forall t :: 0 <= t < |ts| ==> ts[t].state != BLOCKED)
    && (forall t :: 0 <= t < |ts| ==> (t in q <==> ts[t].state == READY && t != IDLE))
    && ts[IDLE].state != ZOMBIE
    && |q| + (if cur > 0 then 1 else 0) <= NODES
  }

  predicate Live(ts: seq<Task>, t: int)
  {
    0 < t < |ts| && ts[t].state != ZOMBIE
  }

  /** Some live task holds identifier `k`. */
  ghost predicate Held(ts: seq<Task>, k: int)
  {
    exists t :: Live(ts, t) && ts[t].pid == k
  }

  /** Taken are 0, the idle task's lost 1 and exactly the identifiers of live tasks, and a live task
      is the newest of all that ever had its identifier. */
  ghost predicate PidsOk(ts: seq<Task>, pids: seq<bool>)
  {
    && |pids| == MAX_PID && 0 < |ts| && ts[IDLE].pid == 0
    && (forall t :: 0 < t < |ts| ==> 2 <= ts[t].pid < MAX_PID)
    && (forall k :: 0 <= k < MAX_PID ==> (pids[k] <==> k <= 1 || Held(ts, k)))
    && (forall t, u :: Live(ts, t) && 0 < u < |ts| && ts[u].pid == ts[t].pid ==> u <= t)
  }

  /** Every task but a zombie is in the list. */
  ghost predicate Listed(ts: seq<Task>, l: seq<int>)
  {
    forall t :: 0 <= t < |ts| && ts[t].state != ZOMBIE ==> t in l
  }

  /** A task is running if and only if it is the current one. */
  ghost predicate OnlyRunning(ts: seq<Task>, cur: int)
  {
    NIL <= cur < |ts| && forall t :: 0 <= t < |ts| ==> (ts[t].state == RUNNING <==> t == cur)
  }

  /** What every run keeps, whatever the callers do: identifiers are in order, idle is listed and never
      queued, and exactly the current task is running. */
  ghost predicate Every(s: Sys)
  {
    && Wf(s) && PidsOk(s.tasks, s.pids) && Listed(s.tasks, s.list)
    && IDLE in s.list && IDLE !in s.queue && OnlyRunning(s.tasks, s.current)
  }

  /** What holds between calls, and inside them while no task is current. */
  ghost predicate Sound(s: Sys)
  {
    Wf(s) && StatesOk(s.tasks, s.queue, s.current) && PidsOk(s.tasks, s.pids) && Listed(s.tasks, s.list)
  }

  ghost predicate Inv(s: Sys)
  {
    Sound(s) && s.current != NIL
  }

  /** Tasks stay, keep their identifiers, and a zombie stays a zombie; only the idle task, if it has exited,
      may run again. In a sound state it has not. */
  ghost predicate Later(s: Sys, r: Sys)
  {
    |s.tasks| <= |r.tasks| && forall t :: 0 <= t < |s.tasks| ==>
      r.tasks[t].pid == s.tasks[t].pid && (t != IDLE && s.tasks[t].state == ZOMBIE ==> r.tasks[t].state == ZOMBIE)
  }

  lemma {:induction false} LaterTrans(a: Sys, b: Sys, c: Sys)
    requires Later(a, b) && Later(b, c)
    ensures Later(a, c)
  {}

  // ------------------------------------------------------- identifiers

  /** Only identifiers and zombies matter. */
  ghost predicate SamePeople(ts: seq<Task>, ts': seq<Task>)
  {
    |ts'| == |ts| && forall t :: 0 <= t < |ts| ==>
      ts'[t].pid == ts[t].pid && (ts'[t].state == ZOMBIE <==> ts[t].state == ZOMBIE)
  }

  /** The idle task never held one of these identifiers: whether it is a zombie does not matter. */
  ghost predicate SameHolders(ts: seq<Task>, ts': seq<Task>)
  {
    |ts'| == |ts| && forall t :: 0 <= t < |ts| ==>
      ts'[t].pid == ts[t].pid && (t != IDLE ==> (ts'[t].state == ZOMBIE <==> ts[t].state == ZOMBIE))
  }

  lemma {:induction false} PidsKept(ts: seq<Task>, ts': seq<Task>, pids: seq<bool>)
    requires SameHolders(ts, ts') && PidsOk(ts, pids)
    ensures PidsOk(ts', pids)
  {
    forall k | 0 <= k < MAX_PID ensures Held(ts', k) <==> Held(ts, k) {
      if Held(ts, k) {
        var t :| Live(ts, t) && ts[t].pid == k;
        assert Live(ts', t) && ts'[t].pid == k;
      }
      if Held(ts', k) {
        var t :| Live(ts', t) && ts'[t].pid == k;
        assert Live(ts, t) && ts[t].pid == k;
      }
    }
    forall t, u | Live(ts', t) && 0 < u < |ts'| && ts'[u].pid == ts'[t].pid ensures u <= t {
      assert Live(ts, t);
    }
  }

  lemma {:induction false} PeopleKept(ts: seq<Task>, ts': seq<Task>, l: seq<int>, pids: seq<bool>)
    requires SamePeople(ts, ts') && PidsOk(ts, pids) && Listed(ts, l)
    ensures PidsOk(ts', pids) && Listed(ts', l)
  {
    PidsKept(ts, ts', pids);
  }

  /** A task's burial gives back its identifier and no other. */
  lemma {:induction false} BuriedPids(ts: seq<Task>, pids: seq<bool>, t: int)
    requires PidsOk(ts, pids) && Live(ts, t)
    ensures PidsOk(ts[t := ts[t].(state := ZOMBIE)], FreePid(pids, ts[t].pid))
  {
    var ts', pids' := ts[t := ts[t].(state := ZOMBIE)], FreePid(pids, ts[t].pid);
    forall k | 0 <= k < MAX_PID ensures pids'[k] <==> k <= 1 || Held(ts', k) {
      if k > 1 && pids'[k] {
        var u :| Live(ts, u) && ts[u].pid == k;
        assert Live(ts', u) && ts'[u].pid == k;
      }
      if Held(ts', k) {
        var u :| Live(ts', u) && ts'[u].pid == k;
        assert Live(ts, u);
      }
    }
    forall u, w | Live(ts', u) && 0 < w < |ts'| && ts'[w].pid == ts'[u].pid ensures w <= u {
      assert Live(ts, u);
    }
  }

  lemma {:induction false} CreatedPids(ts: seq<Task>, pids: seq<bool>, n: Task)
    requires PidsOk(ts, pids) && n.state != ZOMBIE && 1 <= n.pid < MAX_PID && !pids[n.pid]
    ensures PidsOk(ts + [n], pids[n.pid := true])
  {
    var ts', pids' := ts + [n], pids[n.pid := true];
    assert Live(ts', |ts|) && ts'[|ts|].pid == n.pid;
    forall k | 0 <= k < MAX_PID ensures pids'[k] <==> k <= 1 || Held(ts', k) {
      if Held(ts, k) {
        var u :| Live(ts, u) && ts[u].pid == k;
        assert Live(ts', u) && ts'[u].pid == k;
      }
      if Held(ts', k) && k != n.pid {
        var u :| Live(ts', u) && ts'[u].pid == k;
        assert Live(ts, u) && ts[u].pid == k;
      }
    }
    forall u, w | Live(ts', u) && 0 < w < |ts'| && ts'[w].pid == ts'[u].pid ensures w <= u {
      if u < |ts| {
        assert Live(ts, u) && Held(ts, ts[u].pid);
      }
    }
  }

  /** No two live tasks share an identifier. */
  lemma {:induction false} PidsDistinct(s: Sys, t: int, u: int)
    requires Every(s) && Live(s.tasks, t) && Live(s.tasks, u) && s.tasks[t].pid == s.tasks[u].pid
    ensures t == u
  {}

  lemma {:induction false} TailOf(ts: seq<Task>, l: seq<int>)
    requires InRange(l, |ts|) && Descending(l) && l != []
    ensures InRange(l[1..], |ts|) && Descending(l[1..]) && 0 <= l[0] < |ts| && forall x :: x in l[1..] ==> x < l[0]
  {
    var r := l[1..];
    assert forall i :: 0 <= i < |r| ==> r[i] == l[i + 1];
  }

  lemma {:induction false} FindNewest(ts: seq<Task>, l: seq<int>, t: int)
    requires InRange(l, |ts|) && Descending(l) && t in l && 0 <= t < |ts|
    requires forall u :: 0 <= u < |ts| && ts[u].pid == ts[t].pid ==> u <= t
    ensures FindByPid(ts, l, ts[t].pid) == t
  {
    hide InRange, Descending;
    TailOf(ts, l);
    if l[0] != t {
      assert l == [l[0]] + l[1..];
      FindNewest(ts, l[1..], t);
    }
  }

  /** Looking an identifier up gives its live holder, whatever zombies of the same identifier the list
      still has; and the idle task for 0. */
  lemma {:induction false} FindFindsLive(s: Sys, t: int)
    requires Every(s) && (Live(s.tasks, t) || t == IDLE)
    ensures FindByPid(s.tasks, s.list, s.tasks[t].pid) == t
  {
    FindNewest(s.tasks, s.list, t);
  }

  // ------------------------------------------------- steps of the queue

  /** The same but for the tasks, the queue and the minimum. */
  predicate SameRest(s: Sys, r: Sys)
  {
    r.current == s.current && r.list == s.list && r.pids == s.pids
  }

  ghost predicate SameStates(ts: seq<Task>, ts': seq<Task>)
  {
    |ts'| == |ts| && forall t :: 0 <= t < |ts| ==> ts'[t].pid == ts[t].pid && ts'[t].state == ts[t].state
  }

  /** Charging a task that is not queued keeps the queue in order and above the new minimum. */
  lemma {:induction false} UpdateCurrWf(s: Sys, t: int, now: nat)
    requires Wf(s) && 0 <= t < |s.tasks| && t !in s.queue && now < TWO64
    ensures var r := UpdateCurr(s, t, now);
      Wf(r) && SameRest(s, r) && r.queue == s.queue && SameStates(s.tasks, r.tasks)
      && forall u :: 0 <= u < |s.tasks| && u != t ==> r.tasks[u] == s.tasks[u]
  {
    hide Typed;
    var r := UpdateCurr(s, t, now);
    assert forall i :: 0 <= i < |s.queue| ==> s.queue[i] in s.queue;
    assert forall i :: 0 <= i < |s.queue| ==> r.tasks[s.queue[i]] == s.tasks[s.queue[i]];
  }

  lemma {:induction false} EnqueueWf(s: Sys, t: int)
    requires Wf(s) && 0 <= t < |s.tasks| && t !in s.queue && s.tasks[t].state == READY && s.current != t
    ensures var r := Enqueue(s, t);
      && Wf(r) && SameRest(s, r) && SameStates(s.tasks, r.tasks) && r.minV == s.minV
      && (forall u :: 0 <= u < |s.tasks| && u != t ==> r.tasks[u] == s.tasks[u])
      && (|s.queue| == NODES ==> r.queue == s.queue)
      && (|s.queue| < NODES ==> |r.queue| == |s.queue| + 1 && forall x :: x in r.queue <==> x in s.queue || x == t)
  {
    var ts := Clamped(s.tasks, s.minV, t);
    assert forall i :: 0 <= i < |s.queue| ==> s.queue[i] in s.queue;
    QueueFrame(s.tasks, ts, s.queue, s.minV);
    if |s.queue| < NODES {
      PlacedOk(ts, s.queue, s.minV, t);
    }
  }

  /** A ready task may be enqueued exactly when it is not queued: otherwise the queue has it twice. */
  lemma {:induction false} EnqueueOkIff(s: Sys, t: int)
    requires Wf(s) && 0 <= t < |s.tasks| && s.tasks[t].state == READY && s.current != t && |s.queue| < NODES
    ensures Wf(Enqueue(s, t)) <==> t !in s.queue
  {
    if t in s.queue {
      PlacedTwice(Clamped(s.tasks, s.minV, t), s.queue, t);
    } else {
      EnqueueWf(s, t);
    }
  }

  lemma {:induction false} DequeueWf(s: Sys, t: int)
    requires Wf(s)
    ensures var r := Dequeue(s, t);
      && Wf(r) && SameRest(s, r) && r.tasks == s.tasks && r.minV == s.minV
      && (forall x :: x in r.queue <==> x in s.queue && x != t)
      && |r.queue| == |s.queue| - (if t in s.queue then 1 else 0)
  {
    WithoutOk(s.tasks, s.queue, s.minV, t);
  }

  lemma {:induction false} SetStateWf(s: Sys, t: int, st: State)
    requires Wf(s) && 0 <= t < |s.tasks| && t !in s.queue
    ensures Wf(SetState(s, t, st))
  {
    var ts := s.tasks[t := s.tasks[t].(state := st)];
    assert forall i :: 0 <= i < |s.queue| ==> s.queue[i] in s.queue;
    QueueFrame(s.tasks, ts, s.queue, s.minV);
  }

  // ---------------------------------------------- steps of the scheduler

  /** With no task current. */
  function Nobody(s: Sys): Sys
  {
    s.(current := NIL)
  }

  lemma {:induction false} PutBackWf(s: Sys, p: int, now: nat)
    requires Wf(s) && 0 <= p < |s.tasks| && s.tasks[p].state == RUNNING && now < TWO64
    ensures PutBack(s, p, now).Panic? <==> s.tasks[p].pid != 0 && |s.queue| == NODES
    ensures PutBack(s, p, now).Done? ==>
              var r := PutBack(s, p, now).s;
              && Wf(Nobody(r)) && SameRest(s, r) && |r.tasks| == |s.tasks|
              && r.tasks[p].pid == s.tasks[p].pid && r.tasks[p].state == READY
              && (forall u :: 0 <= u < |s.tasks| && u != p ==> r.tasks[u] == s.tasks[u])
              && (s.tasks[p].pid == 0 ==> r.queue == s.queue)
              && (s.tasks[p].pid != 0 ==> |r.queue| == |s.queue| + 1 && forall x :: x in r.queue <==>
                 x in s.queue || x == p)
  {
    var a := UpdateCurr(s, p, now);
    UpdateCurrWf(s, p, now);
    SetStateWf(Nobody(a), p, READY);
    var b := SetState(a, p, READY);
    if b.tasks[p].pid != 0 {
      EnqueueWf(Nobody(b), p);
      assert Enqueue(b, p).queue == Enqueue(Nobody(b), p).queue;
    }
  }

  lemma {:induction false} StartWf(s: Sys, next: int, now: nat)
    requires Wf(Nobody(s)) && Typed(s) && 0 <= next < |s.tasks| && next !in s.queue && now < TWO64
    ensures Wf(Start(s, next, now))
  {
    var r := Start(s, next, now);
    assert forall i :: 0 <= i < |s.queue| ==> s.queue[i] in s.queue;
    QueueFrame(s.tasks, r.tasks, s.queue, s.minV);
  }

  lemma {:induction false} SwitchToWf(s: Sys, next: int, now: nat)
    requires Wf(Nobody(s)) && 0 <= next < |s.tasks| && now < TWO64 && Typed(s)
    ensures SwitchTo(s, next, now).Panic? <==> s.tasks[next].pid == 0 && next in s.queue
    ensures SwitchTo(s, next, now).Done? ==>
              var r := SwitchTo(s, next, now).s;
              && Wf(r) && r.current == next && r.list == s.list && r.pids == s.pids && |r.tasks| == |s.tasks|
              && r.tasks[next].pid == s.tasks[next].pid && r.tasks[next].state == RUNNING
              && r.tasks[next].vruntime == s.tasks[next].vruntime
              && (forall u :: 0 <= u < |s.tasks| && u != next ==> r.tasks[u] == s.tasks[u])
              && (forall x :: x in r.queue <==> x in s.queue && x != next)
              && |r.queue| == |s.queue| - (if next in s.queue then 1 else 0)
  {
    DequeueWf(Nobody(s), next);
    var a := if s.tasks[next].pid != 0 then Dequeue(s, next) else s;
    if next !in a.queue {
      StartWf(a, next, now);
    }
  }

  lemma {:induction false} ResumeWf(s: Sys, p: int)
    requires Wf(Nobody(s)) && Typed(s) && s.current == p && 0 <= p
    ensures Resume(s, p).Done?
    ensures var r := Resume(s, p).s;
      && Wf(r) && SameRest(s, r) && |r.tasks| == |s.tasks| && r.tasks[p].pid == s.tasks[p].pid
      && r.tasks[p].vruntime == s.tasks[p].vruntime
      && r.tasks[p].state == (if s.tasks[p].state == READY then RUNNING else s.tasks[p].state)
      && (forall u :: 0 <= u < |s.tasks| && u != p ==> r.tasks[u] == s.tasks[u])
      && (forall x :: x in r.queue <==> x in s.queue && x != p)
      && |r.queue| == |s.queue| - (if p in s.queue then 1 else 0)
  {
    DequeueWf(Nobody(s), p);
    if s.tasks[p].state == READY {
      SetStateWf(Dequeue(Nobody(s), p), p, RUNNING);
      assert Dequeue(s, p).queue == Dequeue(Nobody(s), p).queue;
    }
  }
}
