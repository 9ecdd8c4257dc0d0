/**
 Red-black trees of pool slots, as values.

 Both mm/vmm.c and kernel/sched/eevdf.c keep a red-black tree whose nodes live in a
 fixed pool; a node is named by its slot number here, and `NIL` is the NULL pointer.
 A `Ctx` is a tree with one subtree missing (a path back to the root), so a loop that
 walks up or down the tree is described by the pair (context, subtree).
 */
module RedBlackTree {
  import opened Bits

  const NIL: int := -1

  datatype Color = Red | Black

  datatype Tree = Leaf | Node(left: Tree, id: int, color: Color, right: Tree)

  datatype Ctx =
    | Top
    | InLeft(up: Ctx, id: int, color: Color, right: Tree)
    | InRight(left: Tree, id: int, color: Color, up: Ctx)

  function Plug(c: Ctx, t: Tree): Tree
  {
    match c
    case Top => t
    case InLeft(up, id, k, r) => Plug(up, Node(t, id, k, r))
    case InRight(l, id, k, up) => Plug(up, Node(l, id, k, t))
  }

  function Root(t: Tree): int
  {
    if t.Leaf? then NIL else t.id
  }

  /** The slot a plugged subtree hangs from. */
  function Hook(c: Ctx): int
  {
    if c.Top? then NIL else c.id
  }

  function Depth(c: Ctx): nat
  {
    if c.Top? then 0 else 1 + Depth(c.up)
  }

  /** Continue the path `inner` by the path `outer`. */
  function Graft(inner: Ctx, outer: Ctx): Ctx
  {
    match inner
    case Top => outer
    case InLeft(up, id, k, r) => InLeft(Graft(up, outer), id, k, r)
    case InRight(l, id, k, up) => InRight(l, id, k, Graft(up, outer))
  }

  lemma {:induction false} PlugGraft(inner: Ctx, outer: Ctx, t: Tree)
    ensures Plug(Graft(inner, outer), t) == Plug(outer, Plug(inner, t))
  {
    match inner
    case Top =>
    case InLeft(up, id, k, r) => PlugGraft(up, outer, Node(t, id, k, r));
    case InRight(l, id, k, up) => PlugGraft(up, outer, Node(l, id, k, t));
  }

  // ---------------------------------------------------------------- order

  /** The slots of a tree from left to right: the sequence the tree stands for. */
  function InOrder(t: Tree): seq<int>
  {
    if t.Leaf? then [] else InOrder(t.left) + [t.id] + InOrder(t.right)
  }

  function Before(c: Ctx): seq<int>
  {
    match c
    case Top => []
    case InLeft(up, _, _, _) => Before(up)
    case InRight(l, id, _, up) => Before(up) + InOrder(l) + [id]
  }

  function After(c: Ctx): seq<int>
  {
    match c
    case Top => []
    case InLeft(up, id, _, r) => [id] + InOrder(r) + After(up)
    case InRight(_, _, _, up) => After(up)
  }

  lemma {:induction false} InOrderPlug(c: Ctx, t: Tree)
    ensures InOrder(Plug(c, t)) == Before(c) + InOrder(t) + After(c)
  {
    match c
    case Top =>
    case InLeft(up, id, k, r) =>
      InOrderPlug(up, Node(t, id, k, r));
      Regroup(Before(up), InOrder(t), [id], InOrder(r), After(up));
    case InRight(l, id, k, up) =>
      InOrderPlug(up, Node(l, id, k, t));
      Regroup(Before(up), InOrder(l), [id], InOrder(t), After(up));
  }

  lemma {:induction false} Regroup(a: seq<int>, b: seq<int>, c: seq<int>, d: seq<int>, e: seq<int>)
    ensures a + (b + c + d) + e == a + b + (c + d + e) == (a + b + c) + d + e
  {}

  ghost predicate Distinct(s: seq<int>)
  {
    forall i, j :: 0 <= i < j < |s| ==> s[i] != s[j]
  }

  function Slots(t: Tree): set<int>
  {
    if t.Leaf? then {} else Slots(t.left) + {t.id} + Slots(t.right)
  }

  /** The slots a context holds around its hole. */
  function Around(c: Ctx): set<int>
  {
    match c
    case Top => {}
    case InLeft(up, id, _, r) => {id} + Slots(r) + Around(up)
    case InRight(l, id, _, up) => {id} + Slots(l) + Around(up)
  }

  /** No slot occurs twice. */
  predicate Unique(t: Tree)
  {
    t.Leaf? ||
    (&& t.id !in Slots(t.left) && t.id !in Slots(t.right) && Slots(t.left) !! Slots(t.right)
     && Unique(t.left) && Unique(t.right))
  }

  predicate UniqueCtx(c: Ctx)
  {
    match c
    case Top => true
    case InLeft(up, id, _, r) =>
      id !in Slots(r) && id !in Around(up) && Slots(r) !! Around(up) && Unique(r) && UniqueCtx(up)
    case InRight(l, id, _, up) =>
      id !in Slots(l) && id !in Around(up) && Slots(l) !! Around(up) && Unique(l) && UniqueCtx(up)
  }

  lemma {:induction false} UniquePlug(c: Ctx, t: Tree)
    ensures Slots(Plug(c, t)) == Slots(t) + Around(c)
    ensures Unique(Plug(c, t)) <==> Unique(t) && UniqueCtx(c) && Slots(t) !! Around(c)
  {
    match c
    case Top =>
    case InLeft(up, id, k, r) => UniquePlug(up, Node(t, id, k, r));
    case InRight(l, id, k, up) => UniquePlug(up, Node(l, id, k, t));
  }

  lemma {:induction false} SlotsInOrder(t: Tree)
    ensures forall x :: x in InOrder(t) <==> x in Slots(t)
  {
    if t.Node? {
      SlotsInOrder(t.left);
      SlotsInOrder(t.right);
    }
  }

  lemma {:induction false} UniqueInOrder(t: Tree)
    requires Unique(t)
    ensures Distinct(InOrder(t))
  {
    if t.Node? {
      UniqueInOrder(t.left);
      UniqueInOrder(t.right);
      SlotsInOrder(t.left);
      SlotsInOrder(t.right);
      var l, r := InOrder(t.left), InOrder(t.right);
      assert forall i :: 0 <= i < |l| ==> l[i] in l;
      assert forall i :: 0 <= i < |r| ==> r[i] in r;
    }
  }

  /** `s` without the slot `x`. */
  function Without(s: seq<int>, x: int): seq<int>
  {
    if s == [] then [] else (if s[0] == x then [] else [s[0]]) + Without(s[1..], x)
  }

  /** Element `i`, or `NIL` outside the sequence. */
  function At(l: seq<int>, i: int): int
  {
    if 0 <= i < |l| then l[i] else NIL
  }

  lemma {:induction false} WithoutAbsent(s: seq<int>, x: int)
    requires x !in s
    ensures Without(s, x) == s
  {
    if s != [] { WithoutAbsent(s[1..], x); }
  }

  lemma {:induction false} WithoutSplit(a: seq<int>, x: int, b: seq<int>)
    requires x !in a && x !in b
    ensures Without(a + [x] + b, x) == a + b
  {
    if a == [] {
      assert [] + [x] + b == [x] + b;
      WithoutAbsent(b, x);
    } else {
      assert (a + [x] + b)[1..] == a[1..] + [x] + b;
      WithoutSplit(a[1..], x, b);
    }
  }

  lemma {:induction false} WithoutMiddle(a: seq<int>, x: int, b: seq<int>)
    requires Distinct(a + [x] + b)
    ensures Without(a + [x] + b, x) == a + b
  {
    var s := a + [x] + b;
    forall i | 0 <= i < |a| ensures a[i] != x { assert s[i] == a[i] && s[|a|] == x; }
    forall i | 0 <= i < |b| ensures b[i] != x { assert s[|a| + 1 + i] == b[i] && s[|a|] == x; }
    WithoutSplit(a, x, b);
  }

  lemma {:induction false} WithoutMembers(s: seq<int>, x: int)
    ensures forall y :: y in Without(s, x) <==> y in s && y != x
    ensures Distinct(s) ==> Distinct(Without(s, x))
  {
    if s != [] {
      WithoutMembers(s[1..], x);
      assert s == [s[0]] + s[1..];
      if Distinct(s) {
        forall i, j | 0 <= i < j < |s[1..]| ensures s[1..][i] != s[1..][j] {
          assert s[i + 1] != s[j + 1];
        }
        assert forall y :: y in s[1..] ==> y != s[0];
        var w := Without(s[1..], x);
        assert forall i :: 0 <= i < |w| ==> w[i] in w;
      }
    }
  }

  /** Every element is an index below `n`. */
  ghost predicate InRange(l: seq<int>, n: nat)
  {
    forall i :: 0 <= i < |l| ==> 0 <= l[i] < n
  }

  /** The slots below `n`, highest first. */
  function Countdown(n: nat): (l: seq<int>)
    ensures |l| == n && forall i :: 0 <= i < n ==> l[i] == n - 1 - i
  {
    seq(n, i requires 0 <= i < n => n - 1 - i)
  }

  /** Leaving out position `k`. */
  function Skipped(l: seq<int>, k: nat): (w: seq<int>)
    requires k < |l|
    ensures |w| == |l| - 1
    ensures forall i :: 0 <= i < |w| ==> w[i] == l[if i < k then i else i + 1]
  {
    l[..k] + l[k + 1..]
  }

  lemma {:induction false} SkippedWithout(l: seq<int>, k: nat)
    requires Distinct(l) && k < |l|
    ensures Skipped(l, k) == Without(l, l[k]) && Distinct(Skipped(l, k))
  {
    assert l == l[..k] + [l[k]] + l[k + 1..];
    WithoutMiddle(l[..k], l[k], l[k + 1..]);
    WithoutMembers(l, l[k]);
  }

  // -------------------------------------------------------------- balance

  predicate IsBlack(t: Tree)
  {
    t.Leaf? || t.color.Black?
  }

  /** No red node has a red child, and every path to a leaf meets `h` black nodes. */
  predicate Balanced(t: Tree, h: nat)
  {
    match t
    case Leaf => h == 0
    case Node(l, _, k, r) =>
      if k.Red? then IsBlack(l) && IsBlack(r) && Balanced(l, h) && Balanced(r, h)
      else h > 0 && Balanced(l, h - 1) && Balanced(r, h - 1)
  }

  predicate RedFrame(c: Ctx)
  {
    !c.Top? && c.color.Red?
  }

  /** The context becomes a red-black tree with a black root once a tree of black height
      `h` is plugged in; under a red frame that tree must have a black root. */
  predicate Fits(c: Ctx, h: nat)
  {
    match c
    case Top => true
    case InLeft(up, _, k, r) =>
      && Balanced(r, h)
      && (if k.Red? then IsBlack(r) && !up.Top? && up.color.Black? && Fits(up, h) else Fits(up, h + 1))
    case InRight(l, _, k, up) =>
      && Balanced(l, h)
      && (if k.Red? then IsBlack(l) && !up.Top? && up.color.Black? && Fits(up, h) else Fits(up, h + 1))
  }

  ghost predicate RedBlack(t: Tree)
  {
    IsBlack(t) && exists h: nat :: Balanced(t, h)
  }

  lemma {:induction false} PlugBalanced(c: Ctx, t: Tree, h: nat)
    requires Fits(c, h) && Balanced(t, h)
    requires RedFrame(c) || c.Top? ==> IsBlack(t)
    ensures RedBlack(Plug(c, t))
  {
    match c
    case Top =>
    case InLeft(up, id, k, r) => PlugBalanced(up, Node(t, id, k, r), if k.Red? then h else h + 1);
    case InRight(l, id, k, up) => PlugBalanced(up, Node(l, id, k, t), if k.Red? then h else h + 1);
  }

  /** A red-black tree taken apart at any node leaves a fitting context. */
  lemma {:induction false} UnplugBalanced(c: Ctx, t: Tree, g: nat) returns (h: nat)
    requires IsBlack(Plug(c, t)) && Balanced(Plug(c, t), g)
    ensures Fits(c, h) && Balanced(t, h)
    ensures RedFrame(c) || c.Top? ==> IsBlack(t)
  {
    match c
    case Top => h := g;
    case InLeft(up, id, k, r) =>
      h := UnplugBalanced(up, Node(t, id, k, r), g);
      h := if k.Red? then h else h - 1;
    case InRight(l, id, k, up) =>
      h := UnplugBalanced(up, Node(l, id, k, t), g);
      h := if k.Red? then h else h - 1;
  }

  function Blacken(t: Tree): Tree
  {
    if t.Leaf? then t else t.(color := Black)
  }

  // --------------------------------------------------------------- height

  function Height(t: Tree): nat
  {
    if t.Leaf? then 0
    else 1 + (if Height(t.left) > Height(t.right) then Height(t.left) else Height(t.right))
  }

  lemma {:induction false} BlackHeightBounds(t: Tree, h: nat)
    requires Balanced(t, h)
    ensures Pow2(h) <= |InOrder(t)| + 1
    ensures Height(t) <= 2 * h + (if IsBlack(t) then 0 else 1)
  {
    if t.Node? {
      var g := if t.color.Red? then h else h - 1;
      BlackHeightBounds(t.left, g);
      BlackHeightBounds(t.right, g);
    }
  }

  /** Height is at most 2 * log2(n + 1), written without logarithms. */
  lemma {:induction false} HeightLogarithmic(t: Tree)
    requires RedBlack(t)
    ensures Pow2((Height(t) + 1) / 2) <= |InOrder(t)| + 1
  {
    var h: nat :| Balanced(t, h);
    BlackHeightBounds(t, h);
    Pow2Monotone((Height(t) + 1) / 2, h);
  }

  // ------------------------------------------------------------ rotations

  function RotatedLeft(t: Tree): Tree
    requires t.Node? && t.right.Node?
  {
    Node(Node(t.left, t.id, t.color, t.right.left), t.right.id, t.right.color, t.right.right)
  }

  function RotatedRight(t: Tree): Tree
    requires t.Node? && t.left.Node?
  {
    Node(t.left.left, t.left.id, t.left.color, Node(t.left.right, t.id, t.color, t.right))
  }

  /** The path to the leftmost node of a non-empty tree, and the subtree there. */
  function MinCtx(t: Tree): Ctx
    requires t.Node?
  {
    if t.left.Leaf? then Top else Graft(MinCtx(t.left), InLeft(Top, t.id, t.color, t.right))
  }

  function MinNode(t: Tree): Tree
    requires t.Node?
    ensures MinNode(t).Node? && MinNode(t).left.Leaf?
  {
    if t.left.Leaf? then t else MinNode(t.left)
  }

  lemma {:induction false} MinPlug(t: Tree)
    requires t.Node?
    ensures Plug(MinCtx(t), MinNode(t)) == t
    ensures MinCtx(t).Top? <==> t.left.Leaf?
  {
    if t.left.Node? {
      MinPlug(t.left);
      PlugGraft(MinCtx(t.left), InLeft(Top, t.id, t.color, t.right), MinNode(t.left));
    }
  }

  /** Cutting the leftmost node out removes the first slot. */
  lemma {:induction false} MinIsFirst(t: Tree)
    requires t.Node?
    ensures InOrder(t) == [MinNode(t).id] + InOrder(Plug(MinCtx(t), MinNode(t).right))
  {
    if t.left.Node? {
      MinIsFirst(t.left);
      PlugGraft(MinCtx(t.left), InLeft(Top, t.id, t.color, t.right), MinNode(t).right);
    }
  }

  /** The path to slot `x`, and the subtree there. */
  function PathTo(t: Tree, x: int): Ctx
    requires x in Slots(t)
  {
    if t.id == x then Top
    else if x in Slots(t.left) then Graft(PathTo(t.left, x), InLeft(Top, t.id, t.color, t.right))
    else Graft(PathTo(t.right, x), InRight(t.left, t.id, t.color, Top))
  }

  function SubtreeAt(t: Tree, x: int): Tree
    requires x in Slots(t)
    ensures SubtreeAt(t, x).Node? && SubtreeAt(t, x).id == x
  {
    if t.id == x then t
    else if x in Slots(t.left) then SubtreeAt(t.left, x)
    else SubtreeAt(t.right, x)
  }

  lemma {:induction false} PathPlug(t: Tree, x: int)
    requires x in Slots(t)
    ensures Plug(PathTo(t, x), SubtreeAt(t, x)) == t
  {
    if t.id != x {
      if x in Slots(t.left) {
        PathPlug(t.left, x);
        PlugGraft(PathTo(t.left, x), InLeft(Top, t.id, t.color, t.right), SubtreeAt(t, x));
      } else {
        PathPlug(t.right, x);
        PlugGraft(PathTo(t.right, x), InRight(t.left, t.id, t.color, Top), SubtreeAt(t, x));
      }
    }
  }

  /** Whether a context fits does not depend on which slots it names. */
  lemma {:induction false} FitsRenamed(inner: Ctx, l: Tree, z: int, y: int, k: Color, outer: Ctx, h: nat)
    requires Fits(Graft(inner, InRight(l, z, k, outer)), h)
    ensures Fits(Graft(inner, InRight(l, y, k, outer)), h)
    ensures RedFrame(Graft(inner, InRight(l, y, k, outer))) <==> RedFrame(Graft(inner, InRight(l, z, k, outer)))
  {
    match inner
    case Top =>
    case InLeft(up, id, kk, r) => FitsRenamed(up, l, z, y, k, outer, if kk.Red? then h else h + 1);
    case InRight(ll, id, kk, up) => FitsRenamed(up, l, z, y, k, outer, if kk.Red? then h else h + 1);
  }

  lemma {:induction false} GraftNotTop(inner: Ctx, outer: Ctx)
    ensures Graft(inner, outer).Top? <==> inner.Top? && outer.Top?
    ensures Hook(Graft(inner, outer)) == if inner.Top? then Hook(outer) else Hook(inner)
  {}
}
