/**
 The runqueue of kernel/sched/eevdf.c: a red-black tree of pool nodes ordered by the virtual
 runtime of their tasks, the cached leftmost node, the pool's bitmap and the counters, changed in
 place. It refines the queue on values.
 */
module RunQueueClass {
  import opened Bits
  import opened RedBlackTree
  import opened RedBlackPool
  import opened RbTreeClass
  import opened SearchTree
  import opened ReadyQueue

  /** The memory tasks live in: a task pointer is an index. */
  class TaskMemory {
    var at: seq<Task>

    constructor ()
      ensures at == []
    {
      at := [];
    }
  }

  function First(ids: seq<int>): int
  {
    if ids == [] then NIL else ids[0]
  }

  /** Going through the nodes `ids`, their tasks are `q`; exactly these nodes are marked in use. */
  ghost predicate NodesHold(ids: seq<int>, owner: seq<int>, bits: nat, q: seq<int>)
  {
    && |owner| == NODES && |ids| == |q| && Distinct(ids) && InRange(ids, NODES)
    && (forall i :: 0 <= i < |ids| ==> owner[ids[i]] == q[i])
    && (forall n :: 0 <= n < NODES ==> (Bit(bits, n) <==> n in ids))
  }

  /** Each node's key: the virtual runtime of its task. */
  function Keys(ts: seq<Task>, owner: seq<int>): (keys: seq<int>)
    ensures |keys| == |owner|
  {
    seq(|owner|, n requires 0 <= n < |owner| => if 0 <= owner[n] < |ts| then ts[owner[n]].vruntime else 0)
  }

  lemma {:induction false} KeysAscend(ts: seq<Task>, ids: seq<int>, owner: seq<int>, bits: nat, q: seq<int>, minV: nat)
    requires NodesHold(ids, owner, bits, q) && QueueOk(ts, q, minV)
    ensures Ascending(Keys(ts, owner), ids)
    ensures forall i :: 0 <= i < |ids| ==> Keys(ts, owner)[ids[i]] == ts[q[i]].vruntime
  {}

  /** Marking a free node and giving it an owner disturbs nothing that is held. */
  lemma {:induction false} NodeFilled(ids: seq<int>, owner: seq<int>, bits: nat, q: seq<int>, n: int, t: int)
    requires NodesHold(ids, owner, bits, q) && 0 <= n < NODES && n !in ids
    ensures forall i :: 0 <= i < |ids| ==> owner[n := t][ids[i]] == q[i]
    ensures forall k :: 0 <= k < NODES ==> (Bit(Or(bits, Pow2(n)), k) <==> k in ids || k == n)
  {
    forall k | 0 <= k < NODES ensures Bit(Or(bits, Pow2(n)), k) <==> k in ids || k == n {
      SetOneBit(bits, n, k);
    }
    assert forall i :: 0 <= i < |ids| ==> ids[i] in ids;
  }

  /** Hanging the node in where a search for its key ended puts the task in its place in the queue. */
  lemma {:induction false} NodeHung(ts: seq<Task>, a: seq<int>, b: seq<int>, owner: seq<int>, q: seq<int>, n: int,
                                    t: int)
    requires |owner| == NODES && |a| + |b| == |q| && InRange(a + b, NODES) && 0 <= n < NODES && 0 <= t < |ts|
    requires InRange(q, |ts|)
    requires (forall i :: 0 <= i < |a + b| ==> owner[(a + b)[i]] == q[i]) && owner[n] == t
    requires NoneAbove(Keys(ts, owner), a, ts[t].vruntime) && AllAbove(Keys(ts, owner), b, ts[t].vruntime)
    ensures Placed(ts, q, t) == q[..|a|] + [t] + q[|a|..]
    ensures InRange(a + [n] + b, NODES) && |a + [n] + b| == |Placed(ts, q, t)|
    ensures forall i :: 0 <= i < |a + [n] + b| ==> owner[(a + [n] + b)[i]] == Placed(ts, q, t)[i]
  {
    var k, v := |a|, ts[t].vruntime;
    forall i | 0 <= i < k ensures ts[q[i]].vruntime <= v {
      assert (a + b)[i] == a[i];
    }
    forall i | k <= i < |q| ensures v < ts[q[i]].vruntime {
      assert (a + b)[i] == b[i - k];
    }
    PlaceUnique(ts, q, v, k);
    var w := a + [n] + b;
    forall i | 0 <= i < |w| ensures 0 <= w[i] < NODES && owner[w[i]] == (q[..k] + [t] + q[k..])[i] {
      if i < k { assert w[i] == (a + b)[i]; } else if i > k { assert w[i] == (a + b)[i - 1]; }
    }
  }

  lemma {:induction false} HungHolds(ts: seq<Task>, a: seq<int>, b: seq<int>, owner: seq<int>, bits: nat, q: seq<int>,
                                     n: int, t: int)
    requires NodesHold(a + b, owner, bits, q) && 0 <= n < NODES && n !in a + b && 0 <= t < |ts| && InRange(q, |ts|)
    requires NoneAbove(Keys(ts, owner[n := t]), a, ts[t].vruntime)
    requires AllAbove(Keys(ts, owner[n := t]), b, ts[t].vruntime)
    ensures NodesHold(a + [n] + b, owner[n := t], Or(bits, Pow2(n)), Placed(ts, q, t))
    ensures First(a + [n] + b) == if a == [] then n else First(a + b)
  {
    NodeFilled(a + b, owner, bits, q, n, t);
    NodeHung(ts, a, b, owner[n := t], q, n, t);
    PlacedMembers(a + b, |a|, n);
    assert (a + b)[..|a|] == a && (a + b)[|a|..] == b;
  }

  /** Tasks and counters agree with the queue. */
  ghost predicate Books(ts: seq<Task>, q: seq<int>, minV: nat, load: nat, nr: nat)
  {
    InFields(ts) && QueueOk(ts, q, minV) && load == LoadOf(ts, q) && nr == |q| && minV < TWO64
  }

  /** Subtraction that stops at 0 (kernel/sched/eevdf.c:347-353). */
  function Less(x: nat, y: nat): nat
  {
    if x >= y then x - y else 0
  }

  lemma {:induction false} BooksPlaced(ts: seq<Task>, q: seq<int>, minV: nat, load: nat, nr: nat, t: int)
    requires Books(ts, q, minV, load, nr) && 0 <= t < |ts| && t !in q && |q| < NODES && minV <= ts[t].vruntime
    ensures Books(ts, Placed(ts, q, t), minV, (load + Weight(ts[t].priority)) % TWO32, nr + 1)
  {
    PlacedOk(ts, q, minV, t);
    var k := PlaceAt(ts, q, ts[t].vruntime);
    assert q == q[..k] + q[k..];
    LoadInserted(ts, q[..k], t, q[k..]);
    LoadBound(ts, Placed(ts, q, t));
  }

  lemma {:induction false} BooksWithout(ts: seq<Task>, q: seq<int>, minV: nat, load: nat, nr: nat, k: nat)
    requires Books(ts, q, minV, load, nr) && k < |q|
    ensures Books(ts, Without(q, q[k]), minV, Less(load, Weight(ts[q[k]].priority)), Less(nr, 1))
  {
    WithoutOk(ts, q, minV, q[k]);
    assert q == q[..k] + [q[k]] + q[k + 1..];
    WithoutMiddle(q[..k], q[k], q[k + 1..]);
    LoadInserted(ts, q[..k], q[k], q[k + 1..]);
  }

  lemma {:induction false} BooksClamped(ts: seq<Task>, q: seq<int>, minV: nat, load: nat, nr: nat, t: int)
    requires Books(ts, q, minV, load, nr) && 0 <= t < |ts| && t !in q
    ensures Books(Clamped(ts, minV, t), q, minV, load, nr)
  {
    assert forall i :: 0 <= i < |q| ==> q[i] in q;
    QueueFrame(ts, Clamped(ts, minV, t), q, minV);
    LoadFrame(ts, Clamped(ts, minV, t), q);
  }

  lemma {:induction false} NodeGone(ids: seq<int>, owner: seq<int>, bits: nat, q: seq<int>, k: nat)
    requires NodesHold(ids, owner, bits, q) && k < |ids| && Distinct(q)
    ensures NodesHold(Without(ids, ids[k]), owner, AndNot(bits, Pow2(ids[k])), Without(q, q[k]))
    ensures First(Without(ids, ids[k])) == if k > 0 then ids[0] else if |ids| > 1 then ids[1] else NIL
  {
    var n := ids[k];
    assert ids == ids[..k] + [n] + ids[k + 1..];
    WithoutMiddle(ids[..k], n, ids[k + 1..]);
    assert q == q[..k] + [q[k]] + q[k + 1..];
    WithoutMiddle(q[..k], q[k], q[k + 1..]);
    WithoutMembers(ids, n);
    var w := Without(ids, n);
    assert forall i :: 0 <= i < |w| ==> w[i] == ids[if i < k then i else i + 1];
    forall m | 0 <= m < NODES ensures Bit(AndNot(bits, Pow2(n)), m) <==> m in w {
      ClearOneBit(bits, n, m);
    }
  }

  /** What lies around a node in the order. */
  lemma {:induction false} OrderAround(c: Ctx, t: Tree, ids: seq<int>, k: nat)
    requires t.Node? && ids == InOrder(Plug(c, t)) && Distinct(ids) && k < |ids| && ids[k] == t.id
    ensures t.right.Leaf? ==> FirstAfter(c) == if k + 1 < |ids| then ids[k + 1] else NIL
    ensures t.right.Node? ==> k + 1 < |ids| && ids[k + 1] == MinNode(t.right).id
  {
    InOrderPlug(c, t);
    var a, l, r, b := Before(c), InOrder(t.left), InOrder(t.right), After(c);
    assert ids == a + (l + [t.id] + r) + b;
    var m := |a| + |l|;
    assert ids[m] == t.id;
    assert ids[m + 1..] == r + b;
    if t.right.Node? {
      MinIsFirst(t.right);
      assert ids[m + 1] == (r + b)[0];
    } else {
      assert |ids| == m + 1 + |b|;
      assert b != [] ==> ids[m + 1] == ids[m + 1..][0] == b[0];
    }
  }

  lemma {:induction false} EmptyHolds(ids: seq<int>, owner: seq<int>, bits: nat, q: seq<int>)
    requires |owner| == NODES && bits == 0 && ids == q == []
    ensures NodesHold(ids, owner, bits, q)
  {
    forall n | 0 <= n < NODES ensures !Bit(bits, n) { BitZero(n); }
  }

  lemma {:induction false} EmptyBooks(ts: seq<Task>, q: seq<int>, minV: nat, load: nat, nr: nat)
    requires ts == [] && q == [] && minV == 0 && load == 0 && nr == 0
    ensures Books(ts, q, minV, load, nr)
  {}

  lemma {:induction false} GoDown(c: Ctx, t: Tree)
    requires t.Node?
    ensures t.id in InOrder(Plug(c, t))
    ensures Before(InLeft(c, t.id, t.color, t.right)) == Before(c)
    ensures Before(InRight(t.left, t.id, t.color, c)) != []
  {
    InOrderPlug(c, t);
  }

  class RunQueue {
    const mem: TaskMemory
    const tree: RbTree
    const owner: array<int>
    var bits: nat
    var leftmost: int
    var minV: nat
    var load: nat
    var nr: nat
    ghost var queue: seq<int>

    ghost function Repr(): set<object>
    {
      {this, tree, tree.pool, owner}
    }

    /** The tree and the pool hold the queue, with `b` as the bitmap. */
    ghost predicate Shape(b: nat)
      reads this`leftmost, this`queue, tree, tree.pool, owner
    {
      && tree.Valid() && tree.pool.Length == NODES && owner.Length == NODES
      && NodesHold(InOrder(tree.tree), owner[..], b, queue) && leftmost == First(InOrder(tree.tree))
    }

    ghost predicate Valid()
      reads this, tree, tree.pool, owner, mem
    {
      Shape(bits) && Books(mem.at, queue, minV, load, nr)
    }

    /** kernel/sched/eevdf.c:201-205. */
    constructor (memory: TaskMemory)
      requires memory.at == []
      ensures Valid() && fresh(tree) && fresh(tree.pool) && fresh(owner) && mem == memory && queue == [] && minV == 0
    {
      mem := memory;
      tree := new RbTree(NODES);
      owner := new int[NODES](_ => NIL);
      bits, leftmost, minV, load, nr, queue := 0, NIL, 0, 0, 0, [];
      new;
      StartsValid();
    }

    lemma StartsValid()
      requires tree.Valid() && tree.tree == Leaf && tree.pool.Length == NODES && owner.Length == NODES && mem.at == []
      requires bits == 0 && leftmost == NIL && minV == load == nr == 0 && queue == []
      ensures Valid()
    {
      EmptyHolds(InOrder(tree.tree), owner[..], bits, queue);
      EmptyBooks(mem.at, queue, minV, load, nr);
    }

    /** kernel/sched/eevdf.c:28-38: the lowest free node. Only word 0 of the bitmap is ever reached. */
    method AllocNode() returns (n: int)
      requires Shape(bits)
      modifies this`bits
      ensures n == NIL <==> |queue| == NODES
      ensures n == NIL ==> bits == old(bits)
      ensures n != NIL ==> 0 <= n < NODES && n !in InOrder(tree.tree) && bits == Or(old(bits), Pow2(n))
    {
      ghost var ids := InOrder(tree.tree);
      FullPool(ids, NODES);
      var i := 0;
      while i < NODES
        invariant 0 <= i <= NODES && (forall k :: 0 <= k < i ==> Bit(bits, k)) && bits == old(bits)
      {
        if !Bit(bits, i) {
          bits := Or(bits, Pow2(i));
          return i;
        }
        i := i + 1;
      }
      WholePool(ids, NODES);
      return NIL;
    }

    /** The scan of kernel/sched/eevdf.c:257-264 and 418-423 for a task's node. */
    method FindNode(t: int) returns (n: int, ghost k: nat)
      requires Shape(bits)
      ensures n == NIL <==> t !in queue
      ensures n != NIL ==> k < |queue| && queue[k] == t && InOrder(tree.tree)[k] == n
    {
      ghost var ids := InOrder(tree.tree);
      k := 0;
      n := 0;
      while n < NODES
        invariant 0 <= n <= NODES
        invariant forall m :: 0 <= m < n && m in ids ==> owner[m] != t
      {
        if Bit(bits, n) && owner[n] == t {
          k :| 0 <= k < |ids| && ids[k] == n;
          return;
        }
        n := n + 1;
      }
      forall i | 0 <= i < |queue| ensures queue[i] != t { assert ids[i] in ids; }
      return NIL, 0;
    }

    /** kernel/sched/eevdf.c:414-425. */
    method IsQueued(t: int) returns (b: bool)
      requires Shape(bits)
      ensures b <==> t in queue
    {
      var n, k := FindNode(t);
      return n != NIL;
    }

    /** kernel/sched/eevdf.c:358-362. */
    method PickNext() returns (t: int)
      requires Shape(bits)
      ensures t == First(queue)
    {
      if leftmost == NIL {
        Peek(tree.pool[..], tree.root, Top, tree.tree);
        return NIL;
      }
      return owner[leftmost];
    }

    /** The descent of kernel/sched/eevdf.c:225-237: where a task of virtual runtime `v` belongs, and
        whether that is before all others. */
    method FindPlace(v: nat) returns (parent: int, asLeft: bool, first: bool, ghost c: Ctx)
      requires tree.Valid() && owner.Length == NODES
      requires forall x :: x in InOrder(tree.tree) ==> 0 <= x < NODES && 0 <= owner[x] < |mem.at|
      requires Ascending(Keys(mem.at, owner[..]), InOrder(tree.tree))
      ensures Plug(c, Leaf) == tree.tree && Hook(c) == parent && (!c.Top? ==> (asLeft <==> c.InLeft?))
      ensures Searching(Keys(mem.at, owner[..]), c, Leaf, v) && (first <==> Before(c) == [])
    {
      hide Searching;
      ghost var keys := Keys(mem.at, owner[..]);
      ghost var t := tree.tree;
      c := Top;
      parent, asLeft, first := NIL, false, true;
      var cur := tree.root;
      Peek(tree.pool[..], tree.root, c, t);
      StartSearch(keys, t, v);
      while cur != NIL
        invariant Plug(c, t) == tree.tree && cur == Root(t) && Searching(keys, c, t, v)
        invariant Hook(c) == parent && (!c.Top? ==> (asLeft <==> c.InLeft?)) && (first <==> Before(c) == [])
        invariant t.Leaf? <==> cur == NIL
        decreases t
      {
        Visit(tree.pool[..], tree.root, keys, c, t, v);
        GoDown(c, t);
        parent := cur;
        asLeft := v < mem.at[owner[parent]].vruntime;
        if asLeft {
          c, t := InLeft(c, t.id, t.color, t.right), t.left;
          cur := tree.pool[parent].left;
        } else {
          c, t := InRight(t.left, t.id, t.color, c), t.right;
          cur := tree.pool[parent].right;
          first := false;
        }
      }
    }

    /** kernel/sched/eevdf.c:272-282: the node after `n` in the order. */
    method NextNode(n: int, ghost k: nat) returns (res: int)
      requires tree.Valid() && k < |InOrder(tree.tree)| && InOrder(tree.tree)[k] == n
      ensures res == if k + 1 < |InOrder(tree.tree)| then InOrder(tree.tree)[k + 1] else NIL
    {
      ghost var ids := InOrder(tree.tree);
      SlotsInOrder(tree.tree);
      UniqueInOrder(tree.tree);
      assert n in ids;
      ghost var c, t := PathTo(tree.tree, n), SubtreeAt(tree.tree, n);
      PathPlug(tree.tree, n);
      OrderAround(c, t, ids, k);
      Peek(tree.pool[..], tree.root, c, t);
      PeekChildren(tree.pool[..], tree.root, c, t);
      if tree.pool[n].right != NIL {
        res := tree.TreeMin(tree.pool[n].right, InRight(t.left, t.id, t.color, c), t.right);
      } else {
        res := Climb(n, c, t);
      }
    }

    /** kernel/sched/eevdf.c:275-281: up until the path comes from the left. */
    method Climb(n: int, ghost c: Ctx, ghost t: Tree) returns (res: int)
      requires tree.Valid() && tree.tree == Plug(c, t) && t.Node? && t.id == n
      ensures res == FirstAfter(c)
    {
      ghost var d, u := c, t;
      Peek(tree.pool[..], tree.root, d, u);
      var current := n;
      res := tree.pool[n].parent;
      while res != NIL && current == tree.pool[res].right
        invariant tree.tree == Plug(d, u) && u.Node? && u.id == current && res == Hook(d) && After(d) == After(c)
        invariant !d.Top? ==> 0 <= d.id < tree.pool.Length && (tree.pool[d.id].right == current <==> d.InRight?)
        decreases d
      {
        current := res;
        res := tree.pool[res].parent;
        d, u := d.up, Node(d.left, d.id, d.color, u);
        Peek(tree.pool[..], tree.root, d, u);
      }
    }

    /** kernel/sched/eevdf.c:211-213. */
    method Clamp(t: int)
      requires Valid() && 0 <= t < |mem.at| && t !in queue
      modifies mem
      ensures Valid() && mem.at == Clamped(old(mem.at), minV, t)
    {
      BooksClamped(mem.at, queue, minV, load, nr, t);
      if mem.at[t].vruntime < minV {
        mem.at := mem.at[t := mem.at[t].(vruntime := minV)];
      }
    }

    /** kernel/sched/eevdf.c:225-245: the node's place in the tree, and whether it is the leftmost. */
    method InsertNode(n: int, v: nat) returns (ghost a: seq<int>, ghost b: seq<int>)
      requires tree.Valid() && owner.Length == tree.pool.Length == NODES && 0 <= n < NODES && n !in InOrder(tree.tree)
      requires forall x :: x in InOrder(tree.tree) ==> 0 <= x < NODES && 0 <= owner[x] < |mem.at|
      requires Ascending(Keys(mem.at, owner[..]), InOrder(tree.tree))
      modifies this`leftmost, tree, tree.pool
      ensures tree.Valid() && InOrder(tree.tree) == a + [n] + b && old(InOrder(tree.tree)) == a + b
      ensures NoneAbove(Keys(mem.at, owner[..]), a, v) && AllAbove(Keys(mem.at, owner[..]), b, v)
      ensures leftmost == if a == [] then n else old(leftmost)
    {
      hide Keys, Ascending, NoneAbove, AllAbove;
      var parent, asLeft, first, c := FindPlace(v);
      SearchEnds(Keys(mem.at, owner[..]), c, v);
      SlotsInOrder(tree.tree);
      a, b := Before(c), After(c);
      if first {
        leftmost := n;
      }
      tree.Insert(n, parent, asLeft, c);
    }

    /** kernel/sched/eevdf.c:221-245: the node gets its task and its place. */
    method HangNode(n: int, t: int, ghost b: nat)
      requires 0 <= n < NODES && Shape(b) && QueueOk(mem.at, queue, minV) && bits == Or(b, Pow2(n))
      requires n !in InOrder(tree.tree) && 0 <= t < |mem.at|
      modifies this`leftmost, this`queue, tree, tree.pool, owner
      ensures Shape(bits) && queue == Placed(mem.at, old(queue), t)
    {
      ghost var ids, q, o := InOrder(tree.tree), queue, owner[..];
      KeysAscend(mem.at, ids, o, b, q, minV);
      OwnersKept(mem.at, ids, o, q, n, t);
      owner[n] := t;
      assert owner[..] == o[n := t];
      ghost var x, y := InsertNode(n, mem.at[t].vruntime);
      HungHolds(mem.at, x, y, o, b, q, n, t);
      queue := Placed(mem.at, q, t);
    }

    /** kernel/sched/eevdf.c:221-249. */
    method Hang(n: int, t: int, ghost b: nat)
      requires 0 <= n < NODES && Shape(b) && Books(mem.at, queue, minV, load, nr) && bits == Or(b, Pow2(n))
      requires n !in InOrder(tree.tree)
      requires 0 <= t < |mem.at| && t !in queue && |queue| < NODES && minV <= mem.at[t].vruntime
      modifies this`leftmost, this`load, this`nr, this`queue, tree, tree.pool, owner
      ensures Valid() && queue == Placed(mem.at, old(queue), t)
    {
      hide RunQueue.Shape;
      ghost var q := Placed(mem.at, queue, t);
      var sum := (load + Weight(mem.at[t].priority)) % TWO32;
      BooksPlaced(mem.at, queue, minV, load, nr, t);
      assert Books(mem.at, q, minV, sum, nr + 1);
      HangNode(n, t, b);
      load, nr := sum, nr + 1;
    }

    /** kernel/sched/eevdf.c:207-250. When the pool is exhausted, only the clamp has happened. */
    method Enqueue(t: int)
      requires Valid() && 0 <= t < |mem.at| && t !in queue
      modifies this, tree, tree.pool, owner, mem
      ensures Valid() && minV == old(minV)
      ensures old(mem.at)[t].state != READY ==> mem.at == old(mem.at) && queue == old(queue)
      ensures old(mem.at)[t].state == READY ==>
                && mem.at == Clamped(old(mem.at), minV, t)
                && queue == if |old(queue)| >= NODES then old(queue) else Placed(mem.at, old(queue), t)
    {
      if mem.at[t].state != READY {
        return;
      }
      Clamp(t);
      ghost var b := bits;
      var n := AllocNode();
      if n == NIL {
        return;
      }
      Hang(n, t, b);
    }

    /** kernel/sched/eevdf.c:271-344 and 355: the node leaves the tree and the pool has it back. */
    method CutNode(n: int, t: int, ghost k: nat)
      requires Shape(bits) && Distinct(queue) && k < |queue| && queue[k] == t && InOrder(tree.tree)[k] == n
      modifies this`leftmost, this`bits, this`queue, tree, tree.pool
      ensures Shape(bits) && queue == Without(old(queue), t)
    {
      ghost var ids := InOrder(tree.tree);
      if leftmost == n {
        leftmost := NextNode(n, k);
      }
      NodeGone(ids, owner[..], bits, queue, k);
      SlotsInOrder(tree.tree);
      assert n in ids;
      tree.Delete(n);
      bits := AndNot(bits, Pow2(n));
      queue := Without(queue, t);
    }

    /** kernel/sched/eevdf.c:271-356 for the node that was found. */
    method Unhang(n: int, t: int, ghost k: nat)
      requires Valid() && k < |queue| && queue[k] == t && InOrder(tree.tree)[k] == n
      modifies this, tree, tree.pool
      ensures Valid() && minV == old(minV) && queue == Without(old(queue), t)
    {
      hide RunQueue.Shape;
      BooksWithout(mem.at, queue, minV, load, nr, k);
      CutNode(n, t, k);
      load, nr := Less(load, Weight(mem.at[t].priority)), Less(nr, 1);
    }

    /** kernel/sched/eevdf.c:252-356. A task that is not queued is left alone. */
    method Dequeue(t: int)
      requires Valid()
      modifies this, tree, tree.pool
      ensures Valid() && minV == old(minV) && queue == Without(old(queue), t)
    {
      var n, k := FindNode(t);
      if n == NIL {
        WithoutAbsent(queue, t);
        return;
      }
      Unhang(n, t, k);
    }

    /** kernel/sched/eevdf.c:364-385. */
    method UpdateCurr(t: int, now: nat)
      requires Valid() && 0 <= t < |mem.at| && t !in queue && now < TWO64
      modifies this`minV, mem
      ensures Valid()
      ensures Elapsed(old(mem.at), t, now) == 0 ==> mem.at == old(mem.at) && minV == old(minV)
      ensures Elapsed(old(mem.at), t, now) != 0 ==>
                && mem.at == Charged(old(mem.at), queue, t, now)
                && minV == mem.at[if queue == [] then t else queue[0]].vruntime
      ensures IsCharge(old(mem.at)[t], mem.at[t], LoadOf(old(mem.at), queue), queue == [], now)
    {
      ChargedIs(mem.at, queue, t, now);
      var delta := (now - mem.at[t].x23) % TWO64;
      if delta == 0 {
        return;
      }
      BooksCharged(mem.at, queue, minV, load, nr, t, now);
      var fair := Fair(delta, load);
      var v := Add64(mem.at[t].vruntime, fair);
      mem.at := mem.at[t := mem.at[t].(x23 := now, vruntime := v)];
      if leftmost != NIL {
        minV := mem.at[owner[leftmost]].vruntime;
      } else {
        minV := mem.at[t].vruntime;
      }
    }

    /** kernel/sched/eevdf.c:387-402. */
    method CalcSlice(t: int) returns (slice: nat)
      requires Valid() && 0 <= t < |mem.at|
      ensures slice == SliceOf(mem.at, queue, t)
      ensures IsSlice(slice, Weight(mem.at[t].priority), LoadOf(mem.at, queue), queue == [])
    {
      SliceIs(mem.at, queue, t);
      if nr == 0 {
        return TIME_SLICE_NS;
      }
      slice := Share(Weight(mem.at[t].priority), load);
      if slice < MIN_GRANULARITY {
        slice := MIN_GRANULARITY;
      }
      if slice > MAX_TIME_SLICE_NS {
        slice := MAX_TIME_SLICE_NS;
      }
    }
  }

  /** The new minimum is at most every queued task's virtual runtime. */
  lemma {:induction false} BooksCharged(ts: seq<Task>, q: seq<int>, minV: nat, load: nat, nr: nat, t: int, now: nat)
    requires Books(ts, q, minV, load, nr) && 0 <= t < |ts| && t !in q && now < TWO64
    ensures var ts' := Charged(ts, q, t, now); Books(ts', q, ts'[if q == [] then t else q[0]].vruntime, load, nr)
  {
    var ts' := Charged(ts, q, t, now);
    assert forall i :: 0 <= i < |q| ==> q[i] in q;
    QueueFrame(ts, ts', q, minV);
    LoadFrame(ts, ts', q);
  }

  /** Giving a free node an owner leaves the keys of the others as they are. */
  lemma {:induction false} OwnersKept(ts: seq<Task>, ids: seq<int>, owner: seq<int>, q: seq<int>, n: int, t: int)
    requires |owner| == NODES && |ids| == |q| && InRange(ids, NODES) && 0 <= n < NODES && n !in ids && InRange(q, |ts|)
    requires forall i :: 0 <= i < |ids| ==> owner[ids[i]] == q[i]
    requires Ascending(Keys(ts, owner), ids)
    ensures Ascending(Keys(ts, owner[n := t]), ids)
    ensures forall x :: x in ids ==> 0 <= x < NODES && 0 <= owner[n := t][x] < |ts|
  {
    assert forall i :: 0 <= i < |ids| ==> ids[i] in ids;
    forall i | 0 <= i < |ids| ensures Keys(ts, owner[n := t])[ids[i]] == Keys(ts, owner)[ids[i]] {}
  }
}
