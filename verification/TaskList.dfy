/**
 The doubly linked task list of kernel/sched/task.c, through the `next` and `prev` fields of the
 tasks, changed in place.
 */
module TaskListClass {
  import opened RedBlackTree
  import opened ReadyQueue
  import opened Scheduler

  /** From `head` on, the links run through exactly `l`, both ways. */
  ghost predicate Linked(head: int, next: seq<int>, prev: seq<int>, l: seq<int>)
  {
    && |prev| == |next| && head == At(l, 0) && Distinct(l) && InRange(l, |next|)
    && (l != [] ==> next[l[|l| - 1]] == NIL && prev[l[0]] == NIL)
    && forall i, j :: 0 <= i < |l| && 0 <= j < |l| && j == i + 1 ==> next[l[i]] == l[j] && prev[l[j]] == l[i]
  }

  lemma {:induction false} PushedLinked(head: int, next: seq<int>, prev: seq<int>, l: seq<int>, t: int, prev': seq<int>)
    requires Linked(head, next, prev, l) && 0 <= t < |next| && t !in l && prev[t] == NIL
    requires prev' == if head == NIL then prev else prev[head := t]
    ensures Linked(t, next[t := head], prev', [t] + l)
  {
    var w := [t] + l;
    assert forall i :: 0 < i < |w| ==> w[i] == l[i - 1];
    assert forall i :: 0 <= i < |l| ==> l[i] in l;
    forall i, j | 0 <= i < |w| && 0 <= j < |w| && j == i + 1
      ensures next[t := head][w[i]] == w[j] && prev'[w[j]] == w[i]
    {
      assert w[j] == l[j - 1] && (i > 0 ==> w[i] == l[i - 1] && l[j - 1] != l[0]);
    }
    assert l != [] ==> w[|w| - 1] == l[|l| - 1];
  }

  /** Without position `k`, with the neighbours' links taken around it. */
  lemma {:induction false} NextSkips(head: int, next: seq<int>, prev: seq<int>, l: seq<int>, k: nat, next': seq<int>)
    requires Linked(head, next, prev, l) && k < |l|
    requires next' == if k == 0 then next else next[l[k - 1] := At(l, k + 1)]
    ensures var w := Skipped(l, k); InRange(w, |next|) && (w != [] ==> next'[w[|w| - 1]] == NIL)
                                    && forall i, j :: 0 <= i < |w| && 0 <= j < |w| && j == i + 1 ==> next'[w[i]] == w[j]
  {
    hide Skipped;
    var w := Skipped(l, k);
    forall i, j | 0 <= i < |w| && 0 <= j < |w| && j == i + 1 ensures next'[w[i]] == w[j] {
      var i', j' := if i < k then i else i + 1, if j < k then j else j + 1;
      assert w[i] == l[i'] && w[j] == l[j'] && (k > 0 && i' != k - 1 ==> l[i'] != l[k - 1]);
    }
    if w != [] {
      var n := |w| - 1;
      var n' := if n < k then n else n + 1;
      assert w[n] == l[n'] && (k > 0 && n' != k - 1 ==> l[n'] != l[k - 1]);
    }
  }

  lemma {:induction false} PrevSkips(head: int, next: seq<int>, prev: seq<int>, l: seq<int>, k: nat, prev': seq<int>)
    requires Linked(head, next, prev, l) && k < |l|
    requires prev' == if k + 1 == |l| then prev else prev[l[k + 1] := At(l, k - 1)]
    ensures var w := Skipped(l, k); InRange(w, |prev|) && (w != [] ==> prev'[w[0]] == NIL)
                                    && forall i, j :: 0 <= i < |w| && 0 <= j < |w| && j == i + 1 ==> prev'[w[j]] == w[i]
  {
    var w := Skipped(l, k);
    forall i, j | 0 <= i < |w| && 0 <= j < |w| && j == i + 1 ensures prev'[w[j]] == w[i] {
      var i', j' := if i < k then i else i + 1, if j < k then j else j + 1;
      assert w[i] == l[i'] && w[j] == l[j'] && (k + 1 < |l| && j' != k + 1 ==> l[j'] != l[k + 1]);
    }
    if w != [] {
      var n := if k == 0 then 1 else 0;
      assert w[0] == l[n] && (k + 1 < |l| && n != k + 1 ==> l[n] != l[k + 1]);
    }
  }

  lemma {:induction false} UnlinkedLinked(head: int, next: seq<int>, prev: seq<int>, l: seq<int>, k: nat,
                                          next': seq<int>, prev': seq<int>)
    requires Linked(head, next, prev, l) && k < |l|
    requires next' == if k == 0 then next else next[l[k - 1] := At(l, k + 1)]
    requires prev' == if k + 1 == |l| then prev else prev[l[k + 1] := At(l, k - 1)]
    ensures Skipped(l, k) == Without(l, l[k])
    ensures Linked(if k == 0 then At(l, 1) else head, next', prev', Skipped(l, k))
  {
    SkippedWithout(l, k);
    NextSkips(head, next, prev, l, k, next');
    PrevSkips(head, next, prev, l, k, prev');
  }

  class TaskList {
    var head: int
    var next: seq<int>
    var prev: seq<int>
    ghost var list: seq<int>

    ghost predicate Valid()
      reads this
    {
      Linked(head, next, prev, list)
    }

    constructor ()
      ensures Valid() && list == [] && next == []
    {
      head, next, prev, list := NIL, [], [], [];
    }

    /** The links of a task just allocated and zeroed (kernel/sched/task.c:56-60). */
    method Allocate()
      requires Valid()
      modifies this
      ensures Valid() && list == old(list) && next == old(next) + [NIL] && prev == old(prev) + [NIL]
    {
      next, prev := next + [NIL], prev + [NIL];
    }

    /** kernel/sched/task.c:102-105. */
    method PushFront(t: int)
      requires Valid() && 0 <= t < |next| && t !in list && prev[t] == NIL
      modifies this
      ensures Valid() && list == [t] + old(list) && |next| == |old(next)|
    {
      PushedLinked(head, next, prev, list, t, if head == NIL then prev else prev[head := t]);
      next := next[t := head];
      if head != NIL {
        prev := prev[head := t];
      }
      head := t;
      list := [t] + list;
    }

    /** kernel/sched/task.c:166-172. */
    method Unlink(t: int)
      requires Valid() && t in list
      modifies this
      ensures Valid() && list == Without(old(list), t) && |next| == |old(next)|
    {
      ghost var k :| 0 <= k < |list| && list[k] == t;
      UnlinkedLinked(head, next, prev, list, k,
                     if k == 0 then next else next[list[k - 1] := At(list, k + 1)],
                     if k + 1 == |list| then prev else prev[list[k + 1] := At(list, k - 1)]);
      assert next[t] == At(list, k + 1) && prev[t] == At(list, k - 1);
      if prev[t] != NIL {
        next := next[prev[t] := next[t]];
      }
      if next[t] != NIL {
        prev := prev[next[t] := prev[t]];
      }
      if t == head {
        head := next[t];
      }
      list := Without(list, t);
    }

    /** kernel/sched/task.c:134-142. */
    method Find(ts: seq<Task>, pid: int) returns (t: int)
      requires Valid() && InRange(list, |ts|)
      ensures t == FindByPid(ts, list, pid)
    {
      t := head;
      ghost var k := 0;
      assert list[0..] == list;
      while t != NIL
        invariant 0 <= k <= |list| && t == At(list, k)
        invariant FindByPid(ts, list[k..], pid) == FindByPid(ts, list, pid)
        decreases |list| - k
      {
        assert list[k..][1..] == list[k + 1..];
        if ts[t].pid == pid {
          return;
        }
        assert next[t] == At(list, k + 1);
        t := next[t];
        k := k + 1;
      }
    }
  }
}
