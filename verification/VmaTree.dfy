/**
 The VMA tree and its node pool (mm/vmm.c:244-331 and the tree work of vmm_map and vmm_unmap).
 A free node's `left` link chains the free list, as in the source.
 */
module VmaTreeClass {
  import opened RedBlackTree
  import opened RedBlackPool
  import opened RbTreeClass
  import opened SearchTree
  import opened VmaMap

  /** The free list: the slots reached from `head` over left links. */
  ghost predicate Chain(s: seq<Link>, head: int, l: seq<int>)
    decreases |l|
  {
    if l == [] then head == NIL
    else head == l[0] && 0 <= head < |s| && Chain(s, s[head].left, l[1..])
  }

  lemma {:induction false} ChainFrame(s: seq<Link>, s': seq<Link>, head: int, l: seq<int>)
    requires Chain(s, head, l) && |s'| == |s|
    requires forall x :: x in l && 0 <= x < |s| ==> s'[x] == s[x]
    ensures Chain(s', head, l)
    decreases |l|
  {
    if l != [] {
      assert l[0] in l;
      ChainFrame(s, s', s[head].left, l[1..]);
    }
  }

  function Picked(vmas: seq<Vma>, ids: seq<int>): (vs: seq<Vma>)
    requires forall i :: 0 <= i < |ids| ==> 0 <= ids[i] < |vmas|
    ensures |vs| == |ids|
  {
    seq(|ids|, i requires 0 <= i < |ids| => vmas[ids[i]])
  }

  function Starts(vmas: seq<Vma>): (keys: seq<int>)
    ensures |keys| == |vmas|
  {
    seq(|vmas|, i requires 0 <= i < |vmas| => vmas[i].va)
  }

  lemma {:induction false} OrderedAscends(vmas: seq<Vma>, ids: seq<int>)
    requires InRange(ids, |vmas|) && Ordered(Picked(vmas, ids))
    ensures Ascending(Starts(vmas), ids)
  {
    var vs := Picked(vmas, ids);
    forall i, j | 0 <= i < j < |ids| ensures Starts(vmas)[ids[i]] <= Starts(vmas)[ids[j]] {
      assert vs[i].va + vs[i].size <= vs[j].va;
    }
  }

  class VmaTree {
    const tree: RbTree
    const vmas: array<Vma>
    var freeHead: int
    var initialized: bool
    ghost var freeList: seq<int>

    ghost function Repr(): set<object>
    {
      {this, tree, tree.pool, vmas}
    }

    ghost predicate Shape()
      reads this, tree, tree.pool, vmas
    {
      && tree.Valid() && vmas.Length == tree.pool.Length
      && InRange(InOrder(tree.tree), vmas.Length)
    }

    /** The areas in address order. */
    ghost function Vmas(): (vs: seq<Vma>)
      reads this, tree, tree.pool, vmas
      requires Shape()
    {
      Picked(vmas[..], InOrder(tree.tree))
    }

    ghost predicate Valid()
      reads this, tree, tree.pool, vmas
    {
      && Shape() && Ordered(Vmas())
      && Chain(tree.pool[..], freeHead, freeList) && Distinct(freeList)
      && (forall x :: x in freeList ==> x !in Slots(tree.tree))
      && |freeList| + |Vmas()| == vmas.Length
    }

    /** mm/vmm.c:302-307, for a pool of any capacity. */
    constructor (capacity: nat)
      ensures Valid() && fresh(Repr()) && vmas.Length == capacity && Vmas() == [] && !initialized
    {
      tree := new RbTree(capacity);
      vmas := new Vma[capacity](_ => Vma(0, 0, 0, 0));
      freeHead, initialized, freeList := NIL, false, [];
      new;
      InitPool();
      freeList := Countdown(capacity);
    }

    /** mm/vmm.c:269-274: push every node of the pool, whether or not it is in use. */
    method InitPool()
      requires freeHead == NIL
      modifies this`freeHead, tree.pool
      ensures Chain(tree.pool[..], freeHead, Countdown(tree.pool.Length))
      ensures forall i :: 0 <= i < tree.pool.Length ==> tree.pool[i] == old(tree.pool[i]).(left := i - 1)
      ensures freeHead == tree.pool.Length - 1
    {
      var i := 0;
      while i < tree.pool.Length
        invariant 0 <= i <= tree.pool.Length && freeHead == i - 1
        invariant forall j :: 0 <= j < i ==> tree.pool[j] == old(tree.pool[j]).(left := j - 1)
        invariant forall j :: i <= j < tree.pool.Length ==> tree.pool[j] == old(tree.pool[j])
      {
        tree.pool[i] := tree.pool[i].(left := freeHead);
        freeHead := i;
        i := i + 1;
      }
      CountdownChain(tree.pool[..], tree.pool.Length);
    }

    /** mm/vmm.c:244-255. */
    method FindLe(va: nat) returns (res: int)
      requires Valid()
      ensures var k := LastAtMost(Vmas(), va); res == if k < 0 then NIL else InOrder(tree.tree)[k]
    {
      ghost var keys := Starts(vmas[..]);
      OrderedAscends(vmas[..], InOrder(tree.tree));
      ghost var c, t := Top, tree.tree;
      var cur := tree.root;
      res := NIL;
      Peek(tree.pool[..], tree.root, c, t);
      while cur != NIL
        invariant Plug(c, t) == tree.tree && cur == Root(t) && Searching(keys, c, t, va) && res == LastBefore(c)
        invariant t.Leaf? <==> cur == NIL
        decreases t
      {
        Visit(tree.pool[..], tree.root, keys, c, t, va);
        if va < vmas[cur].va {
          c, t := InLeft(c, t.id, t.color, t.right), t.left;
          cur := tree.pool[cur].left;
        } else {
          res := cur;
          c, t := InRight(t.left, t.id, t.color, c), t.right;
          cur := tree.pool[cur].right;
        }
      }
      EndsLe(vmas[..], c, va);
    }

    /** mm/vmm.c:309-319. */
    method FindGe(va: nat) returns (res: int)
      requires Valid()
      ensures var k := FirstAtLeast(Vmas(), va); res == if k == |Vmas()| then NIL else InOrder(tree.tree)[k]
    {
      ghost var keys := Starts(vmas[..]);
      OrderedAscends(vmas[..], InOrder(tree.tree));
      ghost var c, t := Top, tree.tree;
      var cur := tree.root;
      res := NIL;
      Peek(tree.pool[..], tree.root, c, t);
      while cur != NIL
        invariant Plug(c, t) == tree.tree && cur == Root(t) && Searching(keys, c, t, va - 1) && res == FirstAfter(c)
        invariant t.Leaf? <==> cur == NIL
        decreases t
      {
        Visit(tree.pool[..], tree.root, keys, c, t, va - 1);
        if va <= vmas[cur].va {
          res := cur;
          c, t := InLeft(c, t.id, t.color, t.right), t.left;
          cur := tree.pool[cur].left;
        } else {
          c, t := InRight(t.left, t.id, t.color, c), t.right;
          cur := tree.pool[cur].right;
        }
      }
      EndsGe(vmas[..], c, va);
    }

    /** mm/vmm.c:321-331. */
    method FindExact(va: nat) returns (res: int)
      requires Valid()
      ensures res == NIL ==> forall i :: 0 <= i < |Vmas()| ==> Vmas()[i].va != va
      ensures res != NIL ==> exists k :: 0 <= k < |Vmas()| && Vmas()[k].va == va && InOrder(tree.tree)[k] == res
    {
      ghost var keys := Starts(vmas[..]);
      OrderedAscends(vmas[..], InOrder(tree.tree));
      ghost var c, t := Top, tree.tree;
      var cur := tree.root;
      Peek(tree.pool[..], tree.root, c, t);
      while cur != NIL
        invariant Plug(c, t) == tree.tree && cur == Root(t) && Searching(keys, c, t, va)
        invariant NoneAbove(keys, Before(c), va - 1)
        invariant t.Leaf? <==> cur == NIL
        decreases t
      {
        Visit(tree.pool[..], tree.root, keys, c, t, va);
        if va < vmas[cur].va {
          c, t := InLeft(c, t.id, t.color, t.right), t.left;
          cur := tree.pool[cur].left;
        } else if va > vmas[cur].va {
          StrictlyBelow(keys, c, t, va);
          c, t := InRight(t.left, t.id, t.color, c), t.right;
          cur := tree.pool[cur].right;
        } else {
          FoundAt(vmas[..], c, t);
          return cur;
        }
      }
      SearchEnds(keys, c, va);
      NoneExact(vmas[..], Before(c), After(c), va);
      return NIL;
    }

    /** Slot `n` is taken off the free list and not yet in the tree. */
    ghost predicate Holding(n: int)
      reads this, tree, tree.pool, vmas
    {
      && Shape() && Ordered(Vmas())
      && Chain(tree.pool[..], freeHead, freeList) && Distinct(freeList)
      && (forall x :: x in freeList ==> x !in Slots(tree.tree))
      && 0 <= n < vmas.Length && n !in Slots(tree.tree) && n !in freeList
      && |freeList| + 1 + |Vmas()| == vmas.Length
    }

    /** mm/vmm.c:276-291. When the list has run out for the first time, the pool is pushed again with
        all its live nodes, and the node handed out is one of them. */
    method AllocNode() returns (n: int)
      requires Valid()
      modifies this, tree.pool
      ensures old(freeList) != [] ==> n == old(freeList)[0] && Holding(n) && Vmas() == old(Vmas())
      ensures old(freeList) == [] && old(initialized) ==> n == NIL && Valid() && Vmas() == old(Vmas())
      ensures old(freeList) == [] && !old(initialized) && vmas.Length > 0 ==> n in Slots(tree.tree)
      ensures initialized == (old(initialized) || old(freeList) == [])
      ensures unchanged(tree) && unchanged(vmas)
    {
      if freeHead == NIL {
        if !initialized {
          UniqueInOrder(tree.tree);
          FullPool(InOrder(tree.tree), vmas.Length);
          SlotsInOrder(tree.tree);
          InitPool();
          initialized := true;
        }
        if freeHead == NIL {
          return NIL;
        }
      }
      n := freeHead;
      freeHead := tree.pool[n].left;
      tree.pool[n] := Link(NIL, NIL, NIL, Red);
      if old(freeHead) != NIL {
        TakeFirst(old(tree.pool[..]), tree.pool[..], old(freeHead), freeList, tree.tree, tree.root);
        freeList := freeList[1..];
      }
    }

    /** The descent of mm/vmm.c:369-377: the empty place where `va` belongs, as parent and side. */
    method FindPlace(va: nat) returns (parent: int, asLeft: bool, ghost c: Ctx)
      requires Shape() && Ordered(Vmas())
      ensures Plug(c, Leaf) == tree.tree && Hook(c) == parent && (!c.Top? ==> (asLeft <==> c.InLeft?))
      ensures Searching(Starts(vmas[..]), c, Leaf, va)
    {
      ghost var keys := Starts(vmas[..]);
      OrderedAscends(vmas[..], InOrder(tree.tree));
      ghost var t := tree.tree;
      c := Top;
      parent, asLeft := NIL, false;
      var cur := tree.root;
      Peek(tree.pool[..], tree.root, c, t);
      while cur != NIL
        invariant Plug(c, t) == tree.tree && cur == Root(t) && Searching(keys, c, t, va)
        invariant Hook(c) == parent && (!c.Top? ==> (asLeft <==> c.InLeft?))
        invariant t.Leaf? <==> cur == NIL
        decreases t
      {
        Visit(tree.pool[..], tree.root, keys, c, t, va);
        parent := cur;
        asLeft := va < vmas[parent].va;
        if asLeft {
          c, t := InLeft(c, t.id, t.color, t.right), t.left;
          cur := tree.pool[parent].left;
        } else {
          c, t := InRight(t.left, t.id, t.color, c), t.right;
          cur := tree.pool[parent].right;
        }
      }
    }

    /** mm/vmm.c:464. */
    method SetAttrs(z: int, attrs: nat, ghost k: nat)
      requires Valid() && k < |Vmas()| && z == InOrder(tree.tree)[k]
      modifies vmas
      ensures Valid() && Vmas() == old(Vmas())[k := old(Vmas())[k].(attrs := attrs)]
    {
      ghost var vs, ids := Vmas(), InOrder(tree.tree);
      UniqueInOrder(tree.tree);
      vmas[z] := vmas[z].(attrs := attrs);
      assert Vmas() == vs[k := vs[k].(attrs := attrs)];
      ghost var w := Vmas();
      assert forall i :: 0 <= i < |w| ==> w[i].va == vs[i].va && w[i].size == vs[i].size && w[i].pa == vs[i].pa;
    }

    /** mm/vmm.c:363-382: fill the node in and hang it into the tree. */
    method InsertNode(n: int, v: Vma)
      requires Holding(n) && Proper(v) && AllClear(Vmas(), v.va, v.size)
      modifies tree, tree.pool, vmas
      ensures Valid() && Vmas() == Inserted(old(Vmas()), LastAtMost(old(Vmas()), v.va) + 1, v)
    {
      hide VmaTree.Vmas, LastAtMost;
      InsertedOrdered(Vmas(), v);
      FillNode(n, v);
      HangNode(n, v.va);
    }

    method FillNode(n: int, v: Vma)
      requires Holding(n)
      modifies vmas
      ensures Holding(n) && Vmas() == old(Vmas()) && vmas[n] == v
    {
      ghost var ids := InOrder(tree.tree);
      SlotsInOrder(tree.tree);
      assert forall i :: 0 <= i < |ids| ==> ids[i] in ids;
      vmas[n] := v;
      PickedFrame(old(vmas[..]), vmas[..], ids);
    }

    /** mm/vmm.c:369-382. */
    method HangNode(n: int, va: nat)
      requires Holding(n) && vmas[n].va == va
      modifies tree, tree.pool
      ensures Shape() && Vmas() == Inserted(old(Vmas()), LastAtMost(old(Vmas()), va) + 1, vmas[n])
      ensures Chain(tree.pool[..], freeHead, freeList) && forall x :: x in freeList ==> x !in Slots(tree.tree)
    {
      var parent, asLeft, c := FindPlace(va);
      EndsLe(vmas[..], c, va);
      ghost var s, t := tree.pool[..], tree.tree;
      tree.Insert(n, parent, asLeft, c);
      PickedInserted(vmas[..], Before(c), n, After(c));
      MoreSlots(t, tree.tree, Before(c), n, After(c));
      ChainFrame(s, tree.pool[..], freeHead, freeList);
    }

    /** mm/vmm.c:440-441 with 293-298: cut the node out and push it on the free list. */
    method RemoveNode(z: int, ghost k: nat)
      requires Valid() && k < |Vmas()| && z == InOrder(tree.tree)[k]
      modifies this, tree, tree.pool
      ensures Valid() && Vmas() == Removed(old(Vmas()), k)
      ensures initialized == old(initialized)
    {
      hide Slots;
      ghost var vs, ids := Vmas(), InOrder(tree.tree);
      SlotsInOrder(tree.tree);
      UniqueInOrder(tree.tree);
      ghost var s := tree.pool[..];
      assert z in ids;
      tree.Delete(z);
      ghost var s1 := tree.pool[..];
      SlotsInOrder(tree.tree);
      RemovedIds(vmas[..], ids, k);
      RemovedOrdered(vs, k);
      tree.pool[z] := tree.pool[z].(left := freeHead);
      freeHead := z;
      freeList := [z] + freeList;
      GiveBack(s, s1, tree.pool[..], old(freeHead), old(freeList), tree.tree, tree.root, z);
    }
  }

  lemma {:induction false} MoreSlots(t: Tree, t': Tree, a: seq<int>, n: int, b: seq<int>)
    requires InOrder(t) == a + b && InOrder(t') == a + [n] + b
    ensures forall x :: x in Slots(t') <==> x in Slots(t) || x == n
  {
    SlotsInOrder(t);
    SlotsInOrder(t');
  }

  lemma {:induction false} PickedFrame(vmas: seq<Vma>, vmas': seq<Vma>, ids: seq<int>)
    requires InRange(ids, |vmas|) && |vmas'| == |vmas|
    requires forall i :: 0 <= i < |ids| ==> vmas'[ids[i]] == vmas[ids[i]]
    ensures Picked(vmas', ids) == Picked(vmas, ids)
  {}

  lemma {:induction false} PickedInserted(vmas: seq<Vma>, a: seq<int>, n: int, b: seq<int>)
    requires InRange(a + b, |vmas|) && 0 <= n < |vmas|
    ensures InRange(a + [n] + b, |vmas|)
    ensures Picked(vmas, a + [n] + b) == Inserted(Picked(vmas, a + b), |a|, vmas[n])
  {
    var s, w := a + b, a + [n] + b;
    forall i | 0 <= i < |w| ensures w[i] == (if i < |a| then s[i] else if i == |a| then n else s[i - 1])
      && 0 <= w[i] < |vmas| {}
  }

  lemma {:induction false} RemovedIds(vmas: seq<Vma>, ids: seq<int>, k: nat)
    requires InRange(ids, |vmas|) && k < |ids| && Distinct(ids)
    ensures Without(ids, ids[k]) == ids[..k] + ids[k + 1..]
    ensures InRange(Without(ids, ids[k]), |vmas|)
    ensures Picked(vmas, Without(ids, ids[k])) == Removed(Picked(vmas, ids), k)
  {
    hide Without, Distinct;
    SkippedWithout(ids, k);
    var w, vs := Skipped(ids, k), Picked(vmas, ids);
    forall i | 0 <= i < |w| ensures 0 <= w[i] < |vmas| && vmas[w[i]] == vs[if i < k then i else i + 1] {}
  }

  /** Pushing a slot that just left the tree keeps the list a list and the tree a tree. */
  lemma {:induction false} GiveBack(s: seq<Link>, s1: seq<Link>, s': seq<Link>, head: int, l: seq<int>, t: Tree,
                                    root: int, z: int)
    requires Chain(s, head, l) && Distinct(l) && Stores(s1, root, t)
    requires |s1| == |s| && 0 <= z < |s| && s' == s1[z := s1[z].(left := head)]
    requires z !in l && z !in Slots(t)
    requires forall x :: x in l && 0 <= x < |s| ==> s1[x] == s[x]
    ensures Chain(s', z, [z] + l) && Distinct([z] + l) && Stores(s', root, t)
  {
    ChainFrame(s, s', head, l);
    assert ([z] + l)[1..] == l;
    HoldsFrame(s1, s', t, NIL);
    assert forall i :: 0 <= i < |l| ==> l[i] in l;
  }

  /** The bottom of a search by `va` cuts the list after the last area at or below it. */
  lemma {:induction false} EndsLe(vmas: seq<Vma>, c: Ctx, va: nat)
    requires Searching(Starts(vmas), c, Leaf, va)
    requires InRange(InOrder(Plug(c, Leaf)), |vmas|) && Ordered(Picked(vmas, InOrder(Plug(c, Leaf))))
    ensures LastAtMost(Picked(vmas, InOrder(Plug(c, Leaf))), va) == |Before(c)| - 1
    ensures InOrder(Plug(c, Leaf)) == Before(c) + After(c)
    ensures Before(c) != [] ==> LastBefore(c) == InOrder(Plug(c, Leaf))[|Before(c)| - 1]
  {
    SearchEnds(Starts(vmas), c, va);
    CutAt(vmas, Before(c), After(c), va, va);
  }

  lemma {:induction false} EndsGe(vmas: seq<Vma>, c: Ctx, va: nat)
    requires Searching(Starts(vmas), c, Leaf, va - 1)
    requires InRange(InOrder(Plug(c, Leaf)), |vmas|) && Ordered(Picked(vmas, InOrder(Plug(c, Leaf))))
    ensures FirstAtLeast(Picked(vmas, InOrder(Plug(c, Leaf))), va) == |Before(c)|
    ensures |InOrder(Plug(c, Leaf))| == |Before(c)| + |After(c)|
    ensures After(c) != [] ==> FirstAfter(c) == InOrder(Plug(c, Leaf))[|Before(c)|]
  {
    SearchEnds(Starts(vmas), c, va - 1);
    CutAt(vmas, Before(c), After(c), va - 1, va);
  }

  /** Taking the head of the free list disturbs neither the rest of the list nor the tree. */
  lemma {:induction false} TakeFirst(s: seq<Link>, s': seq<Link>, head: int, l: seq<int>, t: Tree, root: int)
    requires Chain(s, head, l) && Distinct(l) && l != [] && Stores(s, root, t)
    requires |s'| == |s| && (forall i :: 0 <= i < |s| && i != head ==> s'[i] == s[i])
    requires forall x :: x in l ==> x !in Slots(t)
    ensures Chain(s', s[head].left, l[1..]) && Distinct(l[1..]) && head !in l[1..]
    ensures Stores(s', root, t)
  {
    var r := l[1..];
    assert l[0] in l;
    assert forall i :: 0 <= i < |r| ==> r[i] == l[i + 1];
    ChainFrame(s, s', s[head].left, r);
    HoldsFrame(s, s', t, NIL);
  }

  lemma {:induction false} StrictlyBelow(keys: seq<int>, c: Ctx, t: Tree, va: int)
    requires Searching(keys, c, t, va) && t.Node? && NoneAbove(keys, Before(c), va - 1)
    requires 0 <= t.id < |keys| && keys[t.id] <= va - 1
    ensures NoneAbove(keys, Before(InRight(t.left, t.id, t.color, c)), va - 1)
  {
    InOrderPlug(c, t);
    AscendingParts(keys, Before(c), InOrder(t.left), t.id, InOrder(t.right), After(c));
  }

  lemma {:induction false} FoundAt(vmas: seq<Vma>, c: Ctx, t: Tree)
    requires t.Node? && InRange(InOrder(Plug(c, t)), |vmas|)
    ensures var ids, k := InOrder(Plug(c, t)), |Before(c)| + |InOrder(t.left)|;
      k < |ids| && ids[k] == t.id && Picked(vmas, ids)[k] == vmas[t.id]
  {
    InOrderPlug(c, t);
    var a, l, r, b := Before(c), InOrder(t.left), InOrder(t.right), After(c);
    assert (a + (l + [t.id] + r) + b)[|a| + |l|] == t.id;
  }

  lemma {:induction false} NoneExact(vmas: seq<Vma>, a: seq<int>, b: seq<int>, va: int)
    requires InRange(a + b, |vmas|)
    requires NoneAbove(Starts(vmas), a, va - 1) && AllAbove(Starts(vmas), b, va)
    ensures forall i :: 0 <= i < |a + b| ==> Picked(vmas, a + b)[i].va != va
  {
    forall i | 0 <= i < |a + b| ensures Picked(vmas, a + b)[i].va != va {
      assert (a + b)[i] == if i < |a| then a[i] else b[i - |a|];
    }
  }

  lemma {:induction false} CountdownChain(s: seq<Link>, n: nat)
    requires n <= |s| && forall i :: 0 <= i < n ==> s[i].left == i - 1
    ensures Chain(s, n - 1, Countdown(n))
  {
    if n > 0 {
      CountdownChain(s, n - 1);
      assert Countdown(n)[1..] == Countdown(n - 1);
    }
  }

  /** A cut of the order by start addresses gives the position. */
  lemma {:induction false} CutAt(vmas: seq<Vma>, a: seq<int>, b: seq<int>, x: int, va: nat)
    requires InRange(a + b, |vmas|) && Ordered(Picked(vmas, a + b))
    requires NoneAbove(Starts(vmas), a, x) && AllAbove(Starts(vmas), b, x)
    ensures x == va ==> LastAtMost(Picked(vmas, a + b), va) == |a| - 1
    ensures x == va - 1 ==> FirstAtLeast(Picked(vmas, a + b), va) == |a|
  {
    var vs := Picked(vmas, a + b);
    forall i | 0 <= i < |a| ensures vs[i].va <= x { assert (a + b)[i] == a[i]; }
    forall i | |a| <= i < |vs| ensures x < vs[i].va { assert (a + b)[i] == b[i - |a|]; }
    CutPositions(vs, |a|, va);
  }
}
