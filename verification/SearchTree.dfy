/**
 Searching a stored tree whose slots are ordered by a key: what a loop knows that goes left
 when the key is above a threshold and right otherwise.
 */
module SearchTree {
  import opened RedBlackTree
  import opened RedBlackPool
  import opened RbTreeClass

  /** Along `ids` the keys never decrease. */
  ghost predicate Ascending(keys: seq<int>, ids: seq<int>)
  {
    && (forall i :: 0 <= i < |ids| ==> 0 <= ids[i] < |keys|)
    && (forall i, j :: 0 <= i < j < |ids| ==> keys[ids[i]] <= keys[ids[j]])
  }

  ghost predicate AllAbove(keys: seq<int>, ids: seq<int>, x: int)
  {
    forall i :: 0 <= i < |ids| ==> 0 <= ids[i] < |keys| && x < keys[ids[i]]
  }

  ghost predicate NoneAbove(keys: seq<int>, ids: seq<int>, x: int)
  {
    forall i :: 0 <= i < |ids| ==> 0 <= ids[i] < |keys| && keys[ids[i]] <= x
  }

  /** The search has come down to `t`: everything before it is at or below `x`, everything after it above. */
  ghost predicate Searching(keys: seq<int>, c: Ctx, t: Tree, x: int)
  {
    Ascending(keys, InOrder(Plug(c, t))) && NoneAbove(keys, Before(c), x) && AllAbove(keys, After(c), x)
  }

  lemma {:induction false} AscendingParts(keys: seq<int>, a: seq<int>, l: seq<int>, m: int, r: seq<int>, b: seq<int>)
    requires Ascending(keys, a + (l + [m] + r) + b)
    ensures 0 <= m < |keys|
    ensures forall i :: 0 <= i < |l| ==> 0 <= l[i] < |keys| && keys[l[i]] <= keys[m]
    ensures forall i :: 0 <= i < |r| ==> 0 <= r[i] < |keys| && keys[m] <= keys[r[i]]
  {
    var s := a + (l + [m] + r) + b;
    assert s[|a| + |l|] == m;
    forall i | 0 <= i < |l| ensures 0 <= l[i] < |keys| && keys[l[i]] <= keys[m] {
      assert s[|a| + i] == l[i];
    }
    forall i | 0 <= i < |r| ensures 0 <= r[i] < |keys| && keys[m] <= keys[r[i]] {
      assert s[|a| + |l| + 1 + i] == r[i];
    }
  }

  lemma {:induction false} StepDown(keys: seq<int>, c: Ctx, t: Tree, x: int)
    requires Searching(keys, c, t, x) && t.Node?
    ensures 0 <= t.id < |keys|
    ensures x < keys[t.id] ==> Searching(keys, InLeft(c, t.id, t.color, t.right), t.left, x)
    ensures keys[t.id] <= x ==> Searching(keys, InRight(t.left, t.id, t.color, c), t.right, x)
  {
    hide Ascending;
    InOrderPlug(c, t);
    AscendingParts(keys, Before(c), InOrder(t.left), t.id, InOrder(t.right), After(c));
  }

  lemma {:induction false} StartSearch(keys: seq<int>, t: Tree, x: int)
    requires Ascending(keys, InOrder(t))
    ensures Searching(keys, Top, t, x)
  {}

  /** At the bottom the order is cut in two: at or below `x`, and above. */
  lemma {:induction false} SearchEnds(keys: seq<int>, c: Ctx, x: int)
    requires Searching(keys, c, Leaf, x)
    ensures InOrder(Plug(c, Leaf)) == Before(c) + After(c)
  {
    InOrderPlug(c, Leaf);
  }

  /** The last slot before the hole, `NIL` if there is none. */
  function LastBefore(c: Ctx): int
  {
    if Before(c) == [] then NIL else Before(c)[|Before(c)| - 1]
  }

  function FirstAfter(c: Ctx): int
  {
    if After(c) == [] then NIL else After(c)[0]
  }

  /** A tree of as many different slots as the pool has holds every slot. */
  lemma {:induction false} FullPool(ids: seq<int>, n: nat)
    requires Distinct(ids) && InRange(ids, n)
    ensures |ids| <= n
    ensures |ids| == n ==> forall x :: 0 <= x < n ==> x in ids
    decreases n
  {
    assert ids != [] ==> 0 <= ids[0] < n;
    if n > 0 {
      var w := Without(ids, n - 1);
      WithoutMembers(ids, n - 1);
      assert forall i :: 0 <= i < |w| ==> w[i] in w;
      FullPool(w, n - 1);
      WithoutLength(ids, n - 1);
    }
  }

  lemma {:induction false} WithoutLength(ids: seq<int>, x: int)
    requires Distinct(ids)
    ensures |Without(ids, x)| == |ids| - (if x in ids then 1 else 0)
  {
    if x in ids {
      var k :| 0 <= k < |ids| && ids[k] == x;
      assert ids == ids[..k] + [x] + ids[k + 1..];
      WithoutMiddle(ids[..k], x, ids[k + 1..]);
    } else {
      WithoutAbsent(ids, x);
    }
  }

  /** And a list of different slots that holds every slot of the pool is as long as the pool. */
  lemma {:induction false} WholePool(ids: seq<int>, n: nat)
    requires Distinct(ids) && InRange(ids, n) && forall x :: 0 <= x < n ==> x in ids
    ensures |ids| == n
    decreases n
  {
    FullPool(ids, n);
    if n > 0 {
      var w := Without(ids, n - 1);
      WithoutMembers(ids, n - 1);
      assert forall i :: 0 <= i < |w| ==> w[i] in w;
      WholePool(w, n - 1);
      WithoutLength(ids, n - 1);
    }
  }

  /** One step of a search: what the links say, and where either way leads. */
  lemma {:induction false} Visit(s: seq<Link>, root: int, keys: seq<int>, c: Ctx, t: Tree, x: int)
    requires Stores(s, root, Plug(c, t)) && Searching(keys, c, t, x) && t.Node?
    ensures 0 <= t.id < |keys| && 0 <= t.id < |s|
    ensures s[t.id].left == Root(t.left) && (t.left.Leaf? <==> Root(t.left) == NIL)
    ensures s[t.id].right == Root(t.right) && (t.right.Leaf? <==> Root(t.right) == NIL)
    ensures var d := InLeft(c, t.id, t.color, t.right);
      Plug(d, t.left) == Plug(c, t) && LastBefore(d) == LastBefore(c) && FirstAfter(d) == t.id
      && (x < keys[t.id] ==> Searching(keys, d, t.left, x))
    ensures var d := InRight(t.left, t.id, t.color, c);
      Plug(d, t.right) == Plug(c, t) && LastBefore(d) == t.id && FirstAfter(d) == FirstAfter(c)
      && (keys[t.id] <= x ==> Searching(keys, d, t.right, x))
  {
    Peek(s, root, c, t);
    PeekChildren(s, root, c, t);
    StepDown(keys, c, t, x);
  }
}
