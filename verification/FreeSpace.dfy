/**
 The free list of mm/vmalloc.c: blocks from a fixed pool, doubly linked, and the end of the part of
 the window handed out so far, changed in place. The pass that merges neighbours is modelled up to
 its first merge.
 */
module FreeSpaceClass {
  import opened Bits
  import opened RedBlackTree
  import opened AddressSpace

  datatype Block = Block(va: nat, size: nat, next: int, prev: int)

  /** Each block of `l` links to the next one, and the last to none. */
  ghost predicate Forward(bs: seq<Block>, l: seq<int>)
    requires InRange(l, |bs|)
  {
    && (l != [] ==> bs[l[|l| - 1]].next == NIL)
    && (forall i, j :: 0 <= i < |l| && 0 <= j < |l| && j == i + 1 ==> bs[l[i]].next == l[j])
  }

  ghost predicate Backward(bs: seq<Block>, l: seq<int>)
    requires InRange(l, |bs|)
  {
    && (l != [] ==> bs[l[0]].prev == NIL)
    && (forall i, j :: 0 <= i < |l| && 0 <= j < |l| && j == i + 1 ==> bs[l[j]].prev == l[i])
  }

  /** From `head` on, the links run through exactly the blocks `l`, both ways. */
  ghost predicate Chained(bs: seq<Block>, head: int, l: seq<int>)
  {
    head == At(l, 0) && Distinct(l) && InRange(l, |bs|) && Forward(bs, l) && Backward(bs, l)
  }

  /** The pool's unused blocks, linked one way. */
  ghost predicate Pooled(bs: seq<Block>, head: int, l: seq<int>)
  {
    head == At(l, 0) && Distinct(l) && InRange(l, |bs|) && Forward(bs, l)
  }

  ghost predicate Apart(l: seq<int>, p: seq<int>)
  {
    forall i, j :: 0 <= i < |l| && 0 <= j < |p| ==> l[i] != p[j]
  }

  function Extents(bs: seq<Block>, l: seq<int>): (fs: seq<Extent>)
    requires InRange(l, |bs|)
    ensures |fs| == |l|
  {
    seq(|l|, i requires 0 <= i < |l| => Extent(bs[l[i]].va, bs[l[i]].size))
  }

  /** List and pool share no block, and no free extent reaches the end of the address space. */
  ghost predicate Kept(bs: seq<Block>, head: int, l: seq<int>, poolHead: int, p: seq<int>)
  {
    && Chained(bs, head, l) && Pooled(bs, poolHead, p) && Apart(l, p)
    && forall i :: 0 <= i < |l| ==> bs[l[i]].va + bs[l[i]].size < TWO64
  }

  lemma {:induction false} MovedKept(bs: seq<Block>, bs': seq<Block>, head: int, l: seq<int>, k: nat, poolHead: int,
                                     p: seq<int>)
    requires Kept(bs, head, l, poolHead, p) && k < |l| && Moved(bs, bs', l, k, poolHead)
    ensures Kept(bs', if k == 0 then At(l, 1) else head, Skipped(l, k), l[k], [l[k]] + p)
    ensures Extents(bs', Skipped(l, k)) == Extents(bs, l)[..k] + Extents(bs, l)[k + 1..]
  {
    UnlinkedChained(bs, bs', head, l, k);
    MovedPooled(bs, bs', head, l, k, poolHead, p);
  }

  lemma {:induction false} UnlinkedKept(bs: seq<Block>, bs': seq<Block>, head: int, l: seq<int>, k: nat,
                                        poolHead: int, p: seq<int>)
    requires Kept(bs, head, l, poolHead, p) && k < |l| && Unlinked(bs, bs', l, k)
    ensures Kept(bs', if k == 0 then At(l, 1) else head, Skipped(l, k), poolHead, p)
    ensures Extents(bs', Skipped(l, k)) == Extents(bs, l)[..k] + Extents(bs, l)[k + 1..]
    ensures l[k] !in Skipped(l, k) && l[k] !in p
  {
    UnlinkedChained(bs, bs', head, l, k);
    UnlinkedPooled(bs, bs', head, l, k, poolHead, p);
  }

  lemma {:induction false} UnlinkedPooled(bs: seq<Block>, bs': seq<Block>, head: int, l: seq<int>, k: nat,
                                          poolHead: int, p: seq<int>)
    requires Chained(bs, head, l) && Pooled(bs, poolHead, p) && Apart(l, p) && k < |l| && Unlinked(bs, bs', l, k)
    ensures Pooled(bs', poolHead, p) && Apart(Skipped(l, k), p) && l[k] !in Skipped(l, k) && l[k] !in p
  {
    SkippedWithout(l, k);
    var w := Skipped(l, k);
    forall i | 0 <= i < |p| ensures bs'[p[i]].next == bs[p[i]].next && p[i] != l[k] {
      assert l[k] != p[i] && (k > 0 ==> l[k - 1] != p[i]);
    }
    forall i | 0 <= i < |w| ensures w[i] != l[k] && w[i] == l[if i < k then i else i + 1] {}
  }

  /** A block may change its extent where it is. */
  lemma {:induction false} ChangedKept(bs: seq<Block>, head: int, l: seq<int>, poolHead: int, p: seq<int>, k: nat,
                                       e: Extent)
    requires Kept(bs, head, l, poolHead, p) && k < |l| && e.va + e.size < TWO64
    ensures Kept(bs[l[k] := bs[l[k]].(va := e.va, size := e.size)], head, l, poolHead, p)
    ensures Extents(bs[l[k] := bs[l[k]].(va := e.va, size := e.size)], l) == Extents(bs, l)[k := e]
  {
    var bs' := bs[l[k] := bs[l[k]].(va := e.va, size := e.size)];
    assert forall i :: 0 <= i < |l| && i != k ==> l[i] != l[k];
    assert forall i :: 0 <= i < |bs| ==> bs'[i].next == bs[i].next && bs'[i].prev == bs[i].prev;
  }

  /** Block `l[k]` is unlinked from the list; its own links are left open. */
  ghost predicate Unlinked(bs: seq<Block>, bs': seq<Block>, l: seq<int>, k: nat)
    requires k < |l|
  {
    && |bs'| == |bs| && 0 <= l[k] < |bs|
    && (forall i :: 0 <= i < |bs| ==> bs'[i].va == bs[i].va && bs'[i].size == bs[i].size)
    && (forall i :: 0 <= i < |bs| && i != l[k] ==>
          bs'[i].next == if k > 0 && i == l[k - 1] then At(l, k + 1) else bs[i].next)
    && (forall i :: 0 <= i < |bs| && i != l[k] ==>
          bs'[i].prev == if k + 1 < |l| && i == l[k + 1] then At(l, k - 1) else bs[i].prev)
  }

  /** And pushed on the pool. */
  ghost predicate Moved(bs: seq<Block>, bs': seq<Block>, l: seq<int>, k: nat, poolHead: int)
    requires k < |l|
  {
    Unlinked(bs, bs', l, k) && bs'[l[k]].next == poolHead
  }

  lemma {:induction false} UnlinkedForward(bs: seq<Block>, bs': seq<Block>, head: int, l: seq<int>, k: nat)
    requires Chained(bs, head, l) && k < |l| && Unlinked(bs, bs', l, k)
    ensures InRange(Skipped(l, k), |bs'|) && Forward(bs', Skipped(l, k))
  {
    var w := Skipped(l, k);
    assert k > 0 ==> l[k - 1] != l[k];
    forall i, j | 0 <= i < |w| && 0 <= j < |w| && j == i + 1 ensures bs'[w[i]].next == w[j] {
      var i', j' := if i < k then i else i + 1, if j < k then j else j + 1;
      assert w[i] == l[i'] != l[k] && w[j] == l[j'] && (k > 0 && i' != k - 1 ==> l[i'] != l[k - 1]);
    }
    if w != [] {
      var n := |w| - 1;
      var n' := if n < k then n else n + 1;
      assert w[n] == l[n'] != l[k] && (k > 0 && n' != k - 1 ==> l[n'] != l[k - 1]);
    }
  }

  lemma {:induction false} UnlinkedBackward(bs: seq<Block>, bs': seq<Block>, head: int, l: seq<int>, k: nat)
    requires Chained(bs, head, l) && k < |l| && Unlinked(bs, bs', l, k)
    ensures InRange(Skipped(l, k), |bs'|) && Backward(bs', Skipped(l, k))
  {
    var w := Skipped(l, k);
    forall i, j | 0 <= i < |w| && 0 <= j < |w| && j == i + 1 ensures bs'[w[j]].prev == w[i] {
      var i', j' := if i < k then i else i + 1, if j < k then j else j + 1;
      assert w[j] == l[j'] != l[k] && w[i] == l[i'] && (k + 1 < |l| && j' != k + 1 ==> l[j'] != l[k + 1]);
    }
    if w != [] {
      var m := if k == 0 then 1 else 0;
      assert w[0] == l[m] != l[k] && (k + 1 < |l| && m != k + 1 ==> l[m] != l[k + 1]);
    }
  }

  lemma {:induction false} UnlinkedChained(bs: seq<Block>, bs': seq<Block>, head: int, l: seq<int>, k: nat)
    requires Chained(bs, head, l) && k < |l| && Unlinked(bs, bs', l, k)
    ensures Chained(bs', if k == 0 then At(l, 1) else head, Skipped(l, k))
    ensures Extents(bs', Skipped(l, k)) == Extents(bs, l)[..k] + Extents(bs, l)[k + 1..]
  {
    SkippedWithout(l, k);
    UnlinkedForward(bs, bs', head, l, k);
    UnlinkedBackward(bs, bs', head, l, k);
    UnlinkedExtents(bs, bs', l, k);
  }

  lemma {:induction false} UnlinkedExtents(bs: seq<Block>, bs': seq<Block>, l: seq<int>, k: nat)
    requires InRange(l, |bs|) && k < |l| && |bs'| == |bs|
    requires forall i :: 0 <= i < |bs| ==> bs'[i].va == bs[i].va && bs'[i].size == bs[i].size
    ensures InRange(Skipped(l, k), |bs'|)
    ensures Extents(bs', Skipped(l, k)) == Extents(bs, l)[..k] + Extents(bs, l)[k + 1..]
  {
    var w := Skipped(l, k);
    forall i | 0 <= i < |w| ensures 0 <= w[i] < |bs| {}
  }

  lemma {:induction false} MovedPooled(bs: seq<Block>, bs': seq<Block>, head: int, l: seq<int>, k: nat, poolHead: int,
                                       p: seq<int>)
    requires Chained(bs, head, l) && Pooled(bs, poolHead, p) && Apart(l, p) && k < |l| && Moved(bs, bs', l, k, poolHead)
    ensures Pooled(bs', l[k], [l[k]] + p) && Apart(Skipped(l, k), [l[k]] + p)
  {
    SkippedWithout(l, k);
    var q, w := [l[k]] + p, Skipped(l, k);
    assert forall i :: 0 < i < |q| ==> q[i] == p[i - 1];
    forall i | 0 <= i < |p| ensures bs'[p[i]].next == bs[p[i]].next && p[i] != l[k] {
      assert l[k] != p[i] && (k > 0 ==> l[k - 1] != p[i]);
    }
    forall i, j | 0 <= i < |q| && 0 <= j < |q| && j == i + 1 ensures bs'[q[i]].next == q[j] {
      if i > 0 { assert q[i] == p[i - 1] && q[j] == p[j - 1]; }
    }
    forall i, j | 0 <= i < |w| && 0 <= j < |q| ensures w[i] != q[j] {
      assert w[i] == l[if i < k then i else i + 1] && (j > 0 ==> q[j] == p[j - 1]);
    }
  }

  /** The first pool block leaves, the rest stays linked. */
  lemma {:induction false} PoolTaken(bs: seq<Block>, bs': seq<Block>, head: int, l: seq<int>, poolHead: int,
                                     p: seq<int>)
    requires Kept(bs, head, l, poolHead, p) && p != [] && |bs'| == |bs|
    requires forall i :: 0 <= i < |bs| && i != p[0] ==> bs'[i] == bs[i]
    ensures bs[p[0]].next == At(p[1..], 0) && Kept(bs', head, l, bs[p[0]].next, p[1..])
    ensures Extents(bs', l) == Extents(bs, l)
    ensures p[0] !in l && p[0] !in p[1..]
  {
    var r := p[1..];
    assert forall i :: 0 <= i < |r| ==> r[i] == p[i + 1];
    forall i | 0 <= i < |l| ensures bs'[l[i]] == bs[l[i]] { assert l[i] != p[0]; }
    forall i | 0 <= i < |r| ensures bs'[r[i]] == bs[r[i]] { assert p[i + 1] != p[0]; }
    assert r != [] ==> r[|r| - 1] == p[|p| - 1];
    assert r != [] ==> bs[p[0]].next == p[1];
  }

  /** Block `n` is filled in and linked before `head`. */
  ghost predicate Pushed(bs: seq<Block>, bs': seq<Block>, head: int, l: seq<int>, n: int, e: Extent)
  {
    && |bs'| == |bs| && 0 <= n < |bs| && n !in l && bs'[n] == Block(e.va, e.size, head, NIL)
    && forall i :: 0 <= i < |bs| && i != n ==> bs'[i] == if l != [] && i == head then bs[i].(prev := n) else bs[i]
  }

  lemma {:induction false} PushedOld(bs: seq<Block>, bs': seq<Block>, head: int, l: seq<int>, n: int, e: Extent, i: nat)
    requires Chained(bs, head, l) && Pushed(bs, bs', head, l, n, e) && i < |l|
    ensures l[i] != n && bs'[l[i]] == if i == 0 then bs[l[i]].(prev := n) else bs[l[i]]
  {
    assert l[i] in l && (i > 0 ==> l[i] != l[0]);
  }

  lemma {:induction false} PushedLinks(bs: seq<Block>, bs': seq<Block>, head: int, l: seq<int>, n: int, e: Extent)
    requires Chained(bs, head, l) && Pushed(bs, bs', head, l, n, e)
    ensures InRange([n] + l, |bs'|) && Forward(bs', [n] + l) && Backward(bs', [n] + l)
  {
    var w := [n] + l;
    assert forall i :: 0 < i < |w| ==> w[i] == l[i - 1];
    forall i, j | 0 <= i < |w| && 0 <= j < |w| && j == i + 1
      ensures bs'[w[i]].next == w[j] && bs'[w[j]].prev == w[i]
    {
      PushedOld(bs, bs', head, l, n, e, j - 1);
      if i > 0 { PushedOld(bs, bs', head, l, n, e, i - 1); }
    }
    if l != [] { PushedOld(bs, bs', head, l, n, e, |l| - 1); }
  }

  lemma {:induction false} PushedChained(bs: seq<Block>, bs': seq<Block>, head: int, l: seq<int>, n: int, e: Extent)
    requires Chained(bs, head, l) && Pushed(bs, bs', head, l, n, e)
    ensures Chained(bs', n, [n] + l) && Extents(bs', [n] + l) == [e] + Extents(bs, l)
  {
    hide Forward, Backward;
    PushedLinks(bs, bs', head, l, n, e);
    PushedExtents(bs, bs', head, l, n, e);
    var w := [n] + l;
    forall i | 0 < i < |w| ensures w[i] == l[i - 1] != n {
      PushedOld(bs, bs', head, l, n, e, i - 1);
    }
  }

  lemma {:induction false} PushedExtents(bs: seq<Block>, bs': seq<Block>, head: int, l: seq<int>, n: int, e: Extent)
    requires Chained(bs, head, l) && Pushed(bs, bs', head, l, n, e) && InRange([n] + l, |bs'|)
    ensures Extents(bs', [n] + l) == [e] + Extents(bs, l)
  {
    hide Forward, Backward;
    var es, fs := Extents(bs', [n] + l), [e] + Extents(bs, l);
    forall i | 0 <= i < |es| ensures es[i] == fs[i] {
      if i > 0 { PushedOld(bs, bs', head, l, n, e, i - 1); }
    }
  }

  lemma {:induction false} PushedPooled(bs: seq<Block>, bs': seq<Block>, head: int, l: seq<int>, poolHead: int,
                                        p: seq<int>, n: int, e: Extent)
    requires Chained(bs, head, l) && Pooled(bs, poolHead, p) && Apart(l, p) && Pushed(bs, bs', head, l, n, e) && n !in p
    ensures Pooled(bs', poolHead, p) && Apart([n] + l, p)
  {
    forall i | 0 <= i < |p| ensures bs'[p[i]] == bs[p[i]] && p[i] != n {
      assert p[i] in p && (l != [] ==> l[0] != p[i]);
    }
    var w := [n] + l;
    forall i, j | 0 <= i < |w| && 0 <= j < |p| ensures w[i] != p[j] {
      assert i > 0 ==> w[i] == l[i - 1];
    }
  }

  /** A block outside list and pool goes to the front of the list. */
  lemma {:induction false} PushedKept(bs: seq<Block>, bs': seq<Block>, head: int, l: seq<int>, poolHead: int,
                                      p: seq<int>, n: int, e: Extent)
    requires Kept(bs, head, l, poolHead, p) && n !in p && e.va + e.size < TWO64 && Pushed(bs, bs', head, l, n, e)
    ensures Kept(bs', n, [n] + l, poolHead, p) && Extents(bs', [n] + l) == [e] + Extents(bs, l)
  {
    PushedChained(bs, bs', head, l, n, e);
    PushedPooled(bs, bs', head, l, poolHead, p, n, e);
    var w := [n] + l;
    forall i | 0 <= i < |w| ensures bs'[w[i]].va + bs'[w[i]].size < TWO64 {
      if i > 0 { assert w[i] == l[i - 1] && bs'[w[i]].va == bs[w[i]].va && bs'[w[i]].size == bs[w[i]].size; }
    }
  }

  /** The pass found `i` and `j` first, and both left the list. */
  ghost predicate MergedAt(fs: seq<Extent>, i: nat, j: nat, gs: seq<Extent>)
  {
    i < j < |fs| && Touch(fs[i], fs[j]) && NoneTo(fs, i, j) && gs == Dropped(fs, i, j)
  }

  lemma {:induction false} DroppedTwice(fs: seq<Extent>, gs: seq<Extent>, a: nat, b: nat, b': nat)
    requires a < |fs| && b < |fs| && a != b && b' == (if b < a then b else b - 1) && |gs| == |fs|
    requires gs == fs[a := gs[a]]
    ensures var w := gs[..a] + gs[a + 1..];
      w[..b'] + w[b' + 1..] == if a < b then Dropped(fs, a, b) else Dropped(fs, b, a)
  {}

  lemma {:induction false} EndsFit(bs: seq<Block>, l: seq<int>, i: nat, j: nat)
    requires InRange(l, |bs|) && i < |l| && j < |l| && forall k :: 0 <= k < |l| ==> bs[l[k]].va + bs[l[k]].size < TWO64
    ensures Add64(bs[l[i]].va, bs[l[i]].size) == bs[l[i]].va + bs[l[i]].size
    ensures Add64(bs[l[j]].va, bs[l[j]].size) == bs[l[j]].va + bs[l[j]].size
    ensures bs[l[j]].va + bs[l[j]].size < TWO64
  {
    AddFits(bs[l[i]].va, bs[l[i]].size);
    AddFits(bs[l[j]].va, bs[l[j]].size);
  }

  lemma {:induction false} NoBlocks(bs: seq<Block>, head: int, l: seq<int>, poolHead: int, p: seq<int>)
    requires Kept(bs, head, l, poolHead, p)
    ensures l == [] ==> head == NIL && Extents(bs, l) == []
    ensures p == [] ==> poolHead == NIL
  {}

  lemma {:induction false} StartsKept(bs: seq<Block>, poolHead: int, p: seq<int>)
    requires Pooled(bs, poolHead, p)
    ensures Kept(bs, NIL, [], poolHead, p) && Extents(bs, []) == []
  {}

  class FreeSpace {
    const blocks: array<Block>
    var freeList: int
    var poolList: int
    var initialized: bool
    var next: nat
    ghost var list: seq<int>
    ghost var pool: seq<int>

    ghost predicate Valid()
      reads this, blocks
    {
      Kept(blocks[..], freeList, list, poolList, pool) && (!initialized ==> list == [] && pool == []) && next < TWO64
    }

    /** The free extents, newest first. */
    ghost function Space(): (fs: seq<Extent>)
      reads this, blocks
      requires Valid()
    {
      Extents(blocks[..], list)
    }

    /** mm/vmalloc.c:20-25, for a pool of any capacity. Blocks that were never used touch one another. */
    constructor (capacity: nat)
      ensures Valid() && fresh(blocks) && Space() == [] && next == VMALLOC_START && blocks.Length == capacity
      ensures !initialized
      ensures forall i, j :: 0 <= i < j < capacity ==>
                Touch(Extent(blocks[i].va, blocks[i].size), Extent(blocks[j].va, blocks[j].size))
    {
      blocks := new Block[capacity](_ => Block(0, 0, NIL, NIL));
      freeList, poolList, initialized, next, list, pool := NIL, NIL, false, VMALLOC_START, [], [];
    }

    /** The loop of mm/vmalloc.c:122-134: the best block and the block before it in the list. */
    method FindBest(size: nat) returns (best: int, bestPrev: int, ghost k: int)
      requires Valid()
      ensures k == Best(Space(), size) && best == At(list, k) && (k >= 0 ==> bestPrev == At(list, k - 1))
      ensures best == NIL <==> k < 0
    {
      hide Pooled;
      var prev, cur := NIL, freeList;
      best, bestPrev, k := NIL, NIL, -1;
      ghost var i, fs := 0, Space();
      while cur != NIL
        invariant 0 <= i <= |list| && cur == At(list, i) && prev == At(list, i - 1)
        invariant k == Best(fs[..i], size) && best == At(list, k) && -1 <= k < i
        invariant k >= 0 ==> bestPrev == At(list, k - 1)
        decreases |list| - i
      {
        BestStep(fs, i, size);
        if blocks[cur].size >= size && (best == NIL || blocks[cur].size < blocks[best].size) {
          best, bestPrev, k := cur, prev, i;
        }
        prev := cur;
        cur := blocks[cur].next;
        i := i + 1;
      }
      assert fs[..i] == fs;
    }

    /** The unlinking of mm/vmalloc.c:72-77, 79-84, 92-97, 99-104 and 139-141. */
    method Unlink(b: int, before: int, ghost k: nat)
      requires Chained(blocks[..], freeList, list) && k < |list| && b == list[k] && before == At(list, k - 1)
      modifies this`freeList, blocks
      ensures Unlinked(old(blocks[..]), blocks[..], list, k) && blocks[b].next == old(blocks[b].next)
      ensures freeList == if k == 0 then At(list, 1) else old(freeList)
    {
      var after := blocks[b].next;
      assert after == At(list, k + 1);
      if before == NIL {
        freeList := after;
      } else {
        blocks[before] := blocks[before].(next := after);
      }
      if after != NIL {
        blocks[after] := blocks[after].(prev := blocks[b].prev);
      }
    }

    /** With mm/vmalloc.c:53-56, but for the head of the pool. */
    method MoveBlock(best: int, bestPrev: int, ghost k: nat)
      requires Chained(blocks[..], freeList, list) && k < |list| && best == list[k] && bestPrev == At(list, k - 1)
      modifies this`freeList, blocks
      ensures Moved(old(blocks[..]), blocks[..], list, k, poolList)
      ensures freeList == if k == 0 then At(list, 1) else old(freeList)
    {
      Unlink(best, bestPrev, k);
      blocks[best] := blocks[best].(next := poolList);
    }

    /** mm/vmalloc.c:138-142: the block is used up, unlinked and back in the pool. */
    method TakeWhole(best: int, bestPrev: int, ghost k: nat)
      requires Valid() && k < |list| && best == list[k] && bestPrev == At(list, k - 1)
      modifies this`freeList, this`poolList, this`list, this`pool, blocks
      ensures Valid() && Space() == old(Space())[..k] + old(Space())[k + 1..] && poolList == best
      ensures list == Skipped(old(list), k)
      ensures blocks[best].next == old(poolList)
      ensures forall i :: 0 <= i < blocks.Length && i !in old(list) ==> blocks[i].next == old(blocks[i].next)
    {
      ghost var bs, h, l := blocks[..], freeList, list;
      MoveBlock(best, bestPrev, k);
      MovedKept(bs, blocks[..], h, l, k, poolList, pool);
      poolList := best;
      list, pool := Skipped(l, k), [best] + pool;
      assert Kept(blocks[..], freeList, list, poolList, pool);
    }

    method SetExtent(i: int, va: nat, size: nat)
      requires 0 <= i < blocks.Length
      modifies blocks
      ensures blocks[..] == old(blocks[..])[i := old(blocks[..])[i].(va := va, size := size)]
    {
      blocks[i] := blocks[i].(va := va, size := size);
    }

    /** mm/vmalloc.c:144-145. */
    method Shrink(best: int, size: nat, ghost k: nat, ghost fs: seq<Extent>)
      requires Valid() && k < |list| && best == list[k] && size <= blocks[best].size && fs == Space()
      modifies blocks
      ensures Valid() && Space() == fs[k := Extent(fs[k].va + size, fs[k].size - size)]
    {
      var b := blocks[best];
      ghost var bs := blocks[..];
      AddFits(b.va, size);
      var va, left := Add64(b.va, size), b.size - size;
      assert va == b.va + size;
      ChangedKept(bs, freeList, list, poolList, pool, k, Extent(va, left));
      SetExtent(best, va, left);
    }

    /** mm/vmalloc.c:136-148. */
    method TakeBest(best: int, bestPrev: int, size: nat, ghost k: nat, ghost fs: seq<Extent>) returns (va: nat)
      requires Valid() && k < |list| && best == list[k] && bestPrev == At(list, k - 1) && fs == Space()
      requires size <= fs[k].size
      modifies this`freeList, this`poolList, this`list, this`pool, blocks
      ensures Valid() && va == fs[k].va && Space() == Cut(fs, k, size)
      ensures poolList != NIL <==> old(poolList) != NIL || fs[k].size == size
    {
      va := blocks[best].va;
      if blocks[best].size == size {
        TakeWhole(best, bestPrev, k);
      } else {
        Shrink(best, size, k, fs);
      }
    }

    /** mm/vmalloc.c:119-160. */
    method FindFreeSpace(size: nat) returns (va: nat)
      requires Valid() && size < TWO64
      modifies this`freeList, this`poolList, this`list, this`pool, this`next, blocks
      ensures Valid() && Search(va, Space(), next) == Find(old(Space()), old(next), size)
      ensures Room() <==> old(Room()) || |Space()| < |old(Space())|
    {
      hide Kept, Best;
      var best, bestPrev, k := FindBest(size);
      BestIsSmallest(Space(), size);
      if best != NIL {
        va := TakeBest(best, bestPrev, size, k, Space());
        return;
      }
      var sum := Add64(next, size);
      if sum > VMALLOC_END {
        return 0;
      }
      va := next;
      next := sum;
    }

    /** A block can be had from the pool. */
    predicate Room()
      reads this
    {
      poolList != NIL || (!initialized && blocks.Length > 0)
    }

    /** mm/vmalloc.c:30-35. */
    method InitPool()
      requires poolList == NIL
      modifies this`poolList, blocks
      ensures Pooled(blocks[..], poolList, Countdown(blocks.Length))
    {
      var i := 0;
      while i < blocks.Length
        invariant 0 <= i <= blocks.Length && poolList == i - 1
        invariant forall j :: 0 <= j < i ==> blocks[j].next == j - 1
      {
        blocks[i] := blocks[i].(next := poolList);
        poolList := i;
        i := i + 1;
      }
    }

    /** mm/vmalloc.c:38-42: the first time the pool is found empty, every block is put in it. */
    method FillPool()
      requires Valid()
      modifies this`poolList, this`initialized, this`pool, blocks
      ensures Valid() && initialized && Space() == old(Space()) && (poolList != NIL <==> old(Room()))
    {
      hide Kept;
      NoBlocks(blocks[..], freeList, list, poolList, pool);
      if poolList == NIL && !initialized {
        InitPool();
        initialized := true;
        pool := Countdown(blocks.Length);
        StartsKept(blocks[..], poolList, pool);
      }
    }

    /** mm/vmalloc.c:37-51. */
    method AllocBlock() returns (n: int)
      requires Valid()
      modifies this`poolList, this`initialized, this`pool, blocks
      ensures Valid() && initialized && Space() == old(Space()) && (n == NIL <==> !old(Room()))
      ensures n != NIL ==> 0 <= n < blocks.Length && n !in list && n !in pool
    {
      hide Forward;
      FillPool();
      if poolList == NIL {
        return NIL;
      }
      ghost var bs := blocks[..];
      n := poolList;
      poolList := blocks[n].next;
      blocks[n] := blocks[n].(next := NIL, prev := NIL);
      PoolTaken(bs, blocks[..], freeList, list, n, pool);
      pool := pool[1..];
    }

    /** mm/vmalloc.c:162-182: without a block the extent is forgotten; with one, the pass for neighbours follows. */
    method AddFreeSpace(va: nat, size: nat) returns (merged: bool, ghost i: nat, ghost j: nat)
      requires Valid() && va + size < TWO64
      modifies this`freeList, this`poolList, this`initialized, this`list, this`pool, blocks
      ensures Valid() && (merged <==> old(Room()) && !NoTouch([Extent(va, size)] + old(Space())))
      ensures !merged ==> Space() == if old(Room()) then [Extent(va, size)] + old(Space()) else old(Space())
      ensures merged ==> MergedAt([Extent(va, size)] + old(Space()), i, j, Space())
    {
      merged, i, j := false, 0, 0;
      var n := AllocBlock();
      if n != NIL {
        PushBlock(n, va, size);
        merged, i, j := Coalesce();
      }
    }

    /** mm/vmalloc.c:58-114: the pass over the pairs of blocks, up to its first merge. Without two blocks
        that touch it ends and changes nothing. */
    method Coalesce() returns (merged: bool, ghost i: nat, ghost j: nat)
      requires Valid()
      modifies this`freeList, this`poolList, this`list, this`pool, blocks
      ensures Valid() && (merged <==> !NoTouch(old(Space())))
      ensures !merged ==> blocks[..] == old(blocks[..]) && freeList == old(freeList) && poolList == old(poolList)
                          && list == old(list) && pool == old(pool)
      ensures merged ==> MergedAt(old(Space()), i, j, Space())
    {
      ghost var fs := Space();
      var cur := freeList;
      merged, i, j := false, 0, 0;
      while cur != NIL
        invariant Valid() && blocks[..] == old(blocks[..]) && Same(old(freeList), old(poolList), old(list), old(pool))
        invariant 0 <= i <= |list| && cur == At(list, i) && NoneTo(fs, i, 0)
        decreases |list| - i
      {
        merged, j := CoalesceWith(cur, i, fs);
        if merged {
          return;
        }
        cur := blocks[cur].next;
        i := i + 1;
      }
    }

    ghost predicate Same(f: int, p: int, l: seq<int>, q: seq<int>)
      reads this
    {
      freeList == f && poolList == p && list == l && pool == q
    }

    /** One round of the loop over `cur` (mm/vmalloc.c:66-113). */
    method CoalesceWith(cur: int, ghost i: nat, ghost fs: seq<Extent>) returns (merged: bool, ghost j: nat)
      requires Valid() && fs == Space() && i < |list| && cur == list[i] && NoneTo(fs, i, 0)
      modifies this`freeList, this`poolList, this`list, this`pool, blocks
      ensures Valid()
      ensures !merged ==> blocks[..] == old(blocks[..]) && Same(old(freeList), old(poolList), old(list), old(pool))
      ensures !merged ==> NoneTo(fs, i + 1, 0)
      ensures merged ==> MergedAt(fs, i, j, Space())
    {
      var next := blocks[cur].next;
      j := i + 1;
      while next != NIL
        invariant Valid() && blocks[..] == old(blocks[..]) && Same(old(freeList), old(poolList), old(list), old(pool))
        invariant i < j <= |list| && next == At(list, j) && NoneTo(fs, i, j)
        decreases |list| - j
      {
        EndsFit(blocks[..], list, i, j);
        if Add64(blocks[cur].va, blocks[cur].size) == blocks[next].va {
          Merge(cur, next, i, j, fs);
          return true, j;
        }
        if Add64(blocks[next].va, blocks[next].size) == blocks[cur].va {
          Merge(next, cur, j, i, fs);
          return true, j;
        }
        next := blocks[next].next;
        j := j + 1;
      }
      return false, j;
    }

    /** mm/vmalloc.c:71 and 91. */
    method Grow(keep: int, gone: int, ghost a: nat, ghost b: nat, ghost fs: seq<Extent>)
      requires Valid() && fs == Space() && a < |list| && b < |list| && a != b && keep == list[a] && gone == list[b]
      requires fs[a].va + fs[a].size == fs[b].va
      modifies blocks
      ensures Valid() && Space() == fs[a := Extent(fs[a].va, fs[a].size + fs[b].size)]
      ensures b == a + 1 ==> blocks[keep].next == gone
    {
      ghost var bs := blocks[..];
      EndsFit(bs, list, a, b);
      var va, size := blocks[keep].va, Add64(blocks[keep].size, blocks[gone].size);
      AddFits(blocks[keep].size, blocks[gone].size);
      ChangedKept(bs, freeList, list, poolList, pool, a, Extent(va, size));
      SetExtent(keep, va, size);
    }

    /** Off the list, and on no other. */
    method Detach(b: int, ghost k: nat, ghost fs: seq<Extent>)
      requires Valid() && initialized && k < |list| && b == list[k] && fs == Space()
      modifies this`freeList, this`list, blocks
      ensures Valid() && Space() == fs[..k] + fs[k + 1..] && list == Skipped(old(list), k)
      ensures 0 <= b < blocks.Length && b !in list && blocks[b].next == old(blocks[b].next)
    {
      ghost var bs, h, l := blocks[..], freeList, list;
      Unlink(b, blocks[b].prev, k);
      UnlinkedKept(bs, blocks[..], h, l, k, poolList, pool);
      list := Skipped(l, k);
      assert Kept(blocks[..], freeList, list, poolList, pool);
    }

    /** mm/vmalloc.c:70-86 with (`keep`, `gone`) the pair (cur, next), and 89-106 with (next, cur): the block
        that grows is unlinked first, then the one that goes to the pool. If the one followed the other in
        the list, the block that grew still links to it, and through it to the pool: that is where the pass
        goes on. */
    method Merge(keep: int, gone: int, ghost a: nat, ghost b: nat, ghost fs: seq<Extent>)
      requires Valid() && fs == Space() && a < |list| && b < |list| && a != b && keep == list[a] && gone == list[b]
      requires fs[a].va + fs[a].size == fs[b].va
      modifies this`freeList, this`poolList, this`list, this`pool, blocks
      ensures Valid() && Space() == if a < b then Dropped(fs, a, b) else Dropped(fs, b, a)
      ensures b == a + 1 ==> blocks[keep].next == gone && blocks[gone].next == old(poolList) && keep !in list
    {
      hide FreeSpace.Valid, Dropped;
      Grow(keep, gone, a, b, fs);
      ghost var gs := fs[a := Extent(fs[a].va, fs[a].size + fs[b].size)];
      Detach(keep, a, gs);
      ghost var b' := if b < a then b else b - 1;
      Absorb(gone, b', gs[..a] + gs[a + 1..]);
      DroppedTwice(fs, gs, a, b, b');
    }

    /** Off the list and back in the pool. */
    method Absorb(b: int, ghost k: nat, ghost fs: seq<Extent>)
      requires Valid() && k < |list| && b == list[k] && fs == Space()
      modifies this`freeList, this`poolList, this`list, this`pool, blocks
      ensures Valid() && Space() == fs[..k] + fs[k + 1..] && list == Skipped(old(list), k)
      ensures blocks[b].next == old(poolList)
      ensures forall i :: 0 <= i < blocks.Length && i !in old(list) ==> blocks[i].next == old(blocks[i].next)
    {
      TakeWhole(b, blocks[b].prev, k);
    }

    /** mm/vmalloc.c:171-177. */
    method PushBlock(n: int, va: nat, size: nat)
      requires Valid() && initialized && 0 <= n < blocks.Length && n !in list && n !in pool && va + size < TWO64
      modifies this`freeList, this`list, blocks
      ensures Valid() && Space() == [Extent(va, size)] + old(Space())
    {
      ghost var bs, e := blocks[..], Extent(va, size);
      FillBlock(n, va, size);
      PushedKept(bs, blocks[..], freeList, list, poolList, pool, n, e);
      freeList := n;
      list := [n] + list;
      assert Kept(blocks[..], freeList, list, poolList, pool);
    }

    method FillBlock(n: int, va: nat, size: nat)
      requires Chained(blocks[..], freeList, list) && 0 <= n < blocks.Length && n !in list
      modifies blocks
      ensures Pushed(old(blocks[..]), blocks[..], freeList, list, n, Extent(va, size))
    {
      assert list != [] ==> list[0] in list;
      blocks[n] := Block(va, size, freeList, NIL);
      if freeList != NIL {
        blocks[freeList] := blocks[freeList].(prev := n);
      }
    }
  }
}
