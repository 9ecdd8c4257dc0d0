/**
 The task side of the kernel in place: task memory, runqueue, task list, identifiers and the
 current task (kernel/sched/sched.c, kernel/sched/task.c). Every call does to the abstract view
 what the scheduler on values does.
 */
module KernelClass {
  import opened Bits
  import opened RedBlackTree
  import opened ReadyQueue
  import opened Scheduler
  import opened SchedulerRuns
  import opened SchedulerSafety
  import opened SchedulerLimits
  import opened RunQueueClass
  import opened TaskListClass
  import opened PidMapClass

  /** Only queue order and weights are books: any other change of tasks keeps them. */
  lemma {:induction false} BooksKept(ts: seq<Task>, ts': seq<Task>, q: seq<int>, minV: nat, load: nat, nr: nat)
    requires Books(ts, q, minV, load, nr) && |ts| <= |ts'| && InFields(ts')
    requires forall t :: 0 <= t < |ts| ==> ts'[t].vruntime == ts[t].vruntime && ts'[t].priority == ts[t].priority
    ensures Books(ts', q, minV, load, nr)
  {
    QueueFrame(ts, ts', q, minV);
    LoadFrame(ts, ts', q);
  }

  class Kernel {
    const mem: TaskMemory
    const rq: RunQueue
    const list: TaskList
    const pids: PidMap
    var current: int

    ghost predicate Valid()
      reads this, mem, rq, rq.tree, rq.tree.pool, rq.owner, list, pids.words
    {
      && rq.mem == mem && {rq.owner} !! {pids.words}
      && rq.Valid() && list.Valid() && |list.next| == |mem.at| && pids.words.Length == WORDS
      && NIL <= current < |mem.at|
    }

    /** The state the scheduler on values works with. */
    ghost function View(): (s: Sys)
      reads this, mem, rq, list, pids.words
      requires pids.words.Length == WORDS
    {
      Sys(mem.at, rq.queue, rq.minV, current, list.list, pids.Taken())
    }

    /** The static data of kernel/sched/task.c:10-11 over task memory, runqueue, list and identifiers. */
    constructor (m: TaskMemory, q: RunQueue, l: TaskList, p: PidMap)
      requires q.mem == m && {q.owner} !! {p.words} && q.Valid() && l.Valid() && |l.next| == |m.at|
      requires p.words.Length == WORDS
      ensures mem == m && rq == q && list == l && pids == p
      ensures Valid() && View() == Sys(m.at, q.queue, q.minV, NIL, l.list, p.Taken())
    {
      mem, rq, list, pids, current := m, q, l, p, NIL;
    }

    lemma ValidTyped()
      requires Valid()
      ensures Typed(View())
    {}

    // ------------------------------------------------- single steps

    method Enqueue(t: int)
      requires Valid() && Typed(View()) && 0 <= t < |mem.at| && t !in rq.queue
      modifies mem, rq, rq.tree, rq.tree.pool, rq.owner
      ensures Valid() && View() == Scheduler.Enqueue(old(View()), t)
    {
      rq.Enqueue(t);
    }

    method Dequeue(t: int)
      requires Valid() && Typed(View())
      modifies rq, rq.tree, rq.tree.pool
      ensures Valid() && View() == Scheduler.Dequeue(old(View()), t)
    {
      rq.Dequeue(t);
    }

    method UpdateCurr(t: int, now: nat)
      requires Valid() && Typed(View()) && 0 <= t < |mem.at| && t !in rq.queue && now < TWO64
      modifies mem, rq
      ensures Valid() && View() == Scheduler.UpdateCurr(old(View()), t, now)
    {
      rq.UpdateCurr(t, now);
    }

    method SetState(t: int, st: State)
      requires Valid() && Typed(View()) && 0 <= t < |mem.at|
      modifies mem
      ensures Valid() && View() == Scheduler.SetState(old(View()), t, st)
    {
      ghost var ts := mem.at;
      mem.at := mem.at[t := mem.at[t].(state := st)];
      BooksKept(ts, mem.at, rq.queue, rq.minV, rq.load, rq.nr);
    }

    // ---------------------------------------------------- schedule

    /** kernel/sched/sched.c:22-33 and 113-127. */
    method PutBack(p: int, now: nat) returns (panicked: bool)
      requires Valid() && Wf(View()) && 0 <= p < |mem.at| && mem.at[p].state == RUNNING && now < TWO64
      modifies mem, rq, rq.tree, rq.tree.pool, rq.owner
      ensures panicked <==> Scheduler.PutBack(old(View()), p, now).Panic?
      ensures !panicked ==> Valid() && View() == Scheduler.PutBack(old(View()), p, now).s
    {
      hide RunQueue.Shape;
      UpdateCurr(p, now);
      SetState(p, READY);
      if mem.at[p].pid == 0 {
        return false;
      }
      Enqueue(p);
      var queued := rq.IsQueued(p);
      return !queued;
    }

    /** kernel/sched/sched.c:53-62 and 155-172. */
    method Resume(p: int) returns (panicked: bool)
      requires Valid() && Typed(View()) && 0 <= p < |mem.at|
      modifies mem, rq, rq.tree, rq.tree.pool
      ensures panicked <==> Scheduler.Resume(old(View()), p).Panic?
      ensures !panicked ==> Valid() && View() == Scheduler.Resume(old(View()), p).s
    {
      if mem.at[p].state != READY {
        return false;
      }
      Dequeue(p);
      SetState(p, RUNNING);
      panicked := rq.IsQueued(p);
    }

    /** kernel/sched/sched.c:75-84 and 189-199. */
    method Start(next: int, now: nat)
      requires Valid() && Typed(View()) && 0 <= next < |mem.at| && now < TWO64
      modifies mem, this
      ensures Valid() && View() == Scheduler.Start(old(View()), next, now)
    {
      ghost var ts := mem.at;
      var slice := rq.CalcSlice(next);
      mem.at := mem.at[next := mem.at[next].(state := RUNNING, x23 := now, timeSlice := slice)];
      current := next;
      BooksKept(ts, mem.at, rq.queue, rq.minV, rq.load, rq.nr);
    }

    /** kernel/sched/sched.c:65-84 and 175-199. The state change does not touch the queue, so the second
        look at it sees what the first saw. */
    method SwitchTo(next: int, now: nat) returns (panicked: bool)
      requires Valid() && Typed(View()) && 0 <= next < |mem.at| && now < TWO64
      modifies this, mem, rq, rq.tree, rq.tree.pool
      ensures panicked <==> Scheduler.SwitchTo(old(View()), next, now).Panic?
      ensures !panicked ==> Valid() && View() == Scheduler.SwitchTo(old(View()), next, now).s
    {
      if mem.at[next].pid != 0 {
        Dequeue(next);
      }
      panicked := rq.IsQueued(next);
      if panicked {
        return;
      }
      Start(next, now);
    }

    /** kernel/sched/sched.c:46-84 and 146-199. */
    method Continue(next: int, now: nat) returns (panicked: bool)
      requires Valid() && Typed(View()) && NIL <= next < |mem.at| && now < TWO64
      modifies this, mem, rq, rq.tree, rq.tree.pool
      ensures panicked <==> Scheduler.Continue(old(View()), next, now).Panic?
      ensures !panicked ==> Valid() && View() == Scheduler.Continue(old(View()), next, now).s
    {
      if next == NIL {
        return true;
      }
      if next == current {
        panicked := Resume(next);
      } else {
        panicked := SwitchTo(next, now);
      }
    }

    /** kernel/sched/sched.c:42-49. */
    method NextOrIdle() returns (next: int)
      requires Valid() && Typed(View())
      ensures next == Scheduler.NextOrIdle(View())
    {
      next := rq.PickNext();
      if next == NIL {
        next := list.Find(mem.at, 0);
      }
    }

    /** kernel/sched/sched.c:10-101. */
    method Schedule(now: nat) returns (panicked: bool)
      requires Valid() && Wf(View()) && now < TWO64
      modifies this, mem, rq, rq.tree, rq.tree.pool, rq.owner
      ensures panicked <==> Scheduler.Schedule(old(View()), now).Panic?
      ensures !panicked ==> Valid() && View() == Scheduler.Schedule(old(View()), now).s
    {
      hide RunQueue.Shape;
      if current != NIL {
        if mem.at[current].state == RUNNING {
          panicked := PutBack(current, now);
          if panicked {
            return;
          }
        } else if mem.at[current].state == ZOMBIE {
          panicked := rq.IsQueued(current);
          if panicked {
            return;
          }
        }
      }
      var next := NextOrIdle();
      panicked := Continue(next, now);
    }

    /** kernel/sched/sched.c:112: of the saved registers only x23 matters to the scheduler. */
    method SaveContext(x23: nat)
      requires Valid() && Wf(View()) && current != NIL && x23 < TWO64
      modifies mem
      ensures Valid() && View() == Saved(old(View()), x23) && Wf(View())
    {
      SavedWf(View(), x23);
      ghost var ts := mem.at;
      mem.at := mem.at[current := mem.at[current].(x23 := x23)];
      BooksKept(ts, mem.at, rq.queue, rq.minV, rq.load, rq.nr);
    }

    /** kernel/sched/sched.c:138-151. */
    method NextOrPrev() returns (next: int)
      requires Valid() && Typed(View()) && current != NIL
      ensures next == Scheduler.NextOrPrev(View())
    {
      next := rq.PickNext();
      if next == NIL {
        if mem.at[current].state == READY {
          next := current;
        } else {
          next := list.Find(mem.at, 0);
        }
      }
    }

    /** kernel/sched/sched.c:138-202. */
    method Choose(now: nat) returns (panicked: bool)
      requires Valid() && Typed(View()) && current != NIL && now < TWO64
      modifies this, mem, rq, rq.tree, rq.tree.pool
      ensures panicked <==> Scheduler.Continue(old(View()), Scheduler.NextOrPrev(old(View())), now).Panic?
      ensures !panicked ==>
                Valid() && View() == Scheduler.Continue(old(View()), Scheduler.NextOrPrev(old(View())), now).s
    {
      var next := NextOrPrev();
      panicked := Continue(next, now);
    }

    /** kernel/sched/sched.c:103-202. */
    method Preempt(x23: nat, now1: nat, now2: nat) returns (panicked: bool)
      requires Valid() && Wf(View()) && x23 < TWO64 && now1 < TWO64 && now2 < TWO64
      modifies this, mem, rq, rq.tree, rq.tree.pool, rq.owner
      ensures panicked <==> Scheduler.Preempt(old(View()), x23, now1, now2).Panic?
      ensures !panicked ==> Valid() && View() == Scheduler.Preempt(old(View()), x23, now1, now2).s
    {
      hide RunQueue.Shape;
      if current == NIL {
        return false;
      }
      if mem.at[current].state == RUNNING {
        SaveContext(x23);
        panicked := PutBack(current, now1);
      } else if mem.at[current].state == ZOMBIE {
        panicked := rq.IsQueued(current);
      } else {
        panicked := false;
      }
      if panicked {
        return;
      }
      panicked := Choose(now2);
    }

    // ------------------------------------------------- task lifetime

    /** kernel/sched/task.c:60-72: the new task's memory, once nothing can fail any more. */
    method NewTask(pid: int, priority: int)
      requires Valid() && Typed(View()) && 0 <= pid < MAX_PID && View().pids[pid]
      modifies mem, list
      ensures Valid() && View() == Born(old(View()), pid, priority)
      ensures list.list == old(list.list) && list.prev[|mem.at| - 1] == NIL
    {
      ghost var ts := mem.at;
      mem.at := mem.at + [Task(pid, READY, ClampNice(priority), TIME_SLICE_NS, 0, 0)];
      list.Allocate();
      BooksKept(ts, mem.at, rq.queue, rq.minV, rq.load, rq.nr);
    }

    method PushFront(t: int)
      requires Valid() && 0 <= t < |mem.at| && t !in list.list && list.prev[t] == NIL
      modifies list
      ensures Valid() && View() == old(View()).(list := [t] + old(View()).list)
    {
      list.PushFront(t);
    }

    /** kernel/sched/task.c:54-108. */
    method Create(entry: bool, priority: int, memory: bool, stack: bool) returns (t: int)
      requires Valid() && Wf(View())
      modifies mem, rq, rq.tree, rq.tree.pool, rq.owner, list, pids.words
      ensures Valid() && View() == Scheduler.Create(old(View()), entry, priority, memory, stack)
      ensures t == if |mem.at| == |old(mem.at)| then NIL else |old(mem.at)|
    {
      hide RunQueue.Valid;
      if !memory {
        return NIL;
      }
      var pid := AllocPid();
      if pid < 0 {
        return NIL;
      }
      if !stack {
        FreePid(pid);
        assert pids.Taken() == old(pids.Taken());
        return NIL;
      }
      t := |mem.at|;
      Launch(entry, pid, priority);
    }

    /** kernel/sched/task.c:81-105, with the memory of the new task. */
    method Launch(entry: bool, pid: int, priority: int)
      requires Valid() && 0 <= pid < MAX_PID && View().pids[pid]
      modifies mem, rq, rq.tree, rq.tree.pool, rq.owner, list
      ensures Valid() && View() == Joined(old(View()), entry, pid, priority)
    {
      ValidTyped();
      var t := |mem.at|;
      assert t !in rq.queue && t !in list.list;
      NewTask(pid, priority);
      assert t !in list.list && list.prev[t] == NIL;
      if entry {
        Enqueue(t);
      }
      PushFront(t);
    }

    method AllocPid() returns (pid: int)
      requires Valid()
      modifies pids.words
      ensures Valid() && pid == LowestPid(old(View()).pids, 1)
      ensures View() == if pid < 0 then old(View()) else old(View()).(pids := old(View()).pids[pid := true])
    {
      pid := pids.Alloc();
    }

    method FreePid(pid: int)
      requires Valid()
      modifies pids.words
      ensures Valid() && View() == old(View()).(pids := Scheduler.FreePid(old(View()).pids, pid))
    {
      pids.Free(pid);
    }

    method SetCurrent(t: int)
      requires Valid() && NIL <= t < |mem.at|
      modifies this
      ensures Valid() && View() == old(View()).(current := t)
    {
      current := t;
    }

    method Unlink(t: int)
      requires Valid() && t in list.list
      modifies list
      ensures Valid() && View() == old(View()).(list := Without(old(View()).list, t))
    {
      list.Unlink(t);
    }

    /** kernel/sched/task.c:44. */
    method SetPid(t: int, pid: int)
      requires Valid() && Typed(View()) && 0 <= t < |mem.at|
      modifies mem
      ensures Valid() && View() == old(View()).(tasks := old(mem.at)[t := old(mem.at)[t].(pid := pid)])
    {
      ghost var ts := mem.at;
      mem.at := mem.at[t := mem.at[t].(pid := pid)];
      BooksKept(ts, mem.at, rq.queue, rq.minV, rq.load, rq.nr);
    }

    /** kernel/sched/task.c:44-48. */
    method MakeIdle(t: int)
      requires Valid() && Typed(View()) && 0 <= t < |mem.at|
      modifies this, mem, rq, rq.tree, rq.tree.pool
      ensures Valid() && View() == MadeIdle(old(View()), t)
    {
      SetPid(t, 0);
      Dequeue(t);
      SetState(t, RUNNING);
      SetCurrent(t);
    }

    /** kernel/sched/task.c:40-48. */
    method Init(memory: bool, stack: bool) returns (panicked: bool)
      requires Valid() && View() == Nothing()
      modifies this, mem, rq, rq.tree, rq.tree.pool, rq.owner, list, pids.words
      ensures panicked <==> !memory || !stack
      ensures !panicked ==> Valid() && View() == Boot()
    {
      hide RunQueue.Valid, Scheduler.Create, MadeIdle, Boot, Nothing, Wf;
      BootSteps(View(), memory, stack);
      var idle := Create(true, 0, memory, stack);
      if idle == NIL {
        return true;
      }
      MakeIdle(idle);
      return false;
    }

    /** kernel/sched/task.c:110-128. */
    method Exit(now: nat) returns (panicked: bool)
      requires Valid() && Wf(View()) && now < TWO64
      modifies this, mem, rq, rq.tree, rq.tree.pool, rq.owner, pids.words
      ensures panicked <==> Scheduler.Exit(old(View()), now).Panic?
      ensures !panicked ==> Valid() && View() == Scheduler.Exit(old(View()), now).s
    {
      if current == NIL {
        return false;
      }
      BuryWf(View(), current);
      SetState(current, ZOMBIE);
      FreePid(mem.at[current].pid);
      SetCurrent(NIL);
      panicked := Schedule(now);
    }

    /** kernel/sched/task.c:158-172. */
    method Remove(t: int)
      requires Valid() && Wf(View()) && 0 <= t < |mem.at| && t in list.list
      modifies mem, rq, rq.tree, rq.tree.pool, list, pids.words
      ensures Valid() && Wf(View()) && Wf(Nobody(View())) && View() == Removed(old(View()), t)
    {
      DequeueWf(View(), t);
      if mem.at[t].state == READY {
        Dequeue(t);
      }
      BuryWf(View(), t);
      SetState(t, ZOMBIE);
      FreePid(mem.at[t].pid);
      UnlistWf(View(), t);
      UnlistWf(Nobody(View()), t);
      Unlink(t);
    }

    /** kernel/sched/task.c:144-191; `r` is the value returned. */
    method Kill(t: int, now: nat) returns (r: int, panicked: bool)
      requires Valid() && Wf(View()) && Listed(mem.at, list.list) && NIL <= t < |mem.at| && now < TWO64
      modifies this, mem, rq, rq.tree, rq.tree.pool, rq.owner, list, pids.words
      ensures panicked <==> Scheduler.Kill(old(View()), t, now).Panic?
      ensures !panicked ==> Valid() && View() == Scheduler.Kill(old(View()), t, now).s
      ensures r == if t == NIL || old(mem.at)[t].pid == 0 then -1 else 0
    {
      if t == NIL || mem.at[t].pid == 0 {
        return -1, false;
      }
      r := 0;
      panicked := false;
      if mem.at[t].state == ZOMBIE {
        return;
      }
      Remove(t);
      if t == current {
        SetCurrent(NIL);
        panicked := Schedule(now);
      }
    }
  }
}
