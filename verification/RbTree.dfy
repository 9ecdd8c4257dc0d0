/**
 The red-black tree of mm/vmm.c (lines 35-242), updated in place in a pool of links.
 kernel/sched/eevdf.c keeps its own copy of the same algorithm (lines 51-199 and 285-344),
 with `transplant` written out; both files are served by this class.
 */
module RbTreeClass {
  import opened RedBlackTree
  import opened RedBlackPool

  /** The two shapes a rotation exchanges: x above y on its right, and y above x on its left. */
  function LowRight(a: Tree, x: int, kx: Color, b: Tree, y: int, ky: Color, d: Tree): Tree
  {
    Node(a, x, kx, Node(b, y, ky, d))
  }

  function LowLeft(a: Tree, x: int, kx: Color, b: Tree, y: int, ky: Color, d: Tree): Tree
  {
    Node(Node(a, x, kx, b), y, ky, d)
  }

  lemma {:induction false} ShapesAgree(a: Tree, x: int, kx: Color, b: Tree, y: int, ky: Color, d: Tree, k: Color,
                                       l: Color)
    ensures Slots(LowRight(a, x, kx, b, y, ky, d)) == Slots(LowLeft(a, x, k, b, y, l, d))
    ensures Unique(LowRight(a, x, kx, b, y, ky, d)) <==> Unique(LowLeft(a, x, k, b, y, l, d))
  {
    assert Slots(Node(b, y, ky, d)) == Slots(b) + {y} + Slots(d);
    assert Slots(Node(a, x, k, b)) == Slots(a) + {x} + Slots(b);
  }

  /** A rotation changes neither the order of the slots nor, with it, what a search finds. */
  lemma {:induction false} RotationKeepsOrder(a: Tree, x: int, kx: Color, b: Tree, y: int, ky: Color, d: Tree, k: Color,
                                              l: Color)
    ensures InOrder(LowRight(a, x, kx, b, y, ky, d)) == InOrder(LowLeft(a, x, k, b, y, l, d))
  {
    assert InOrder(Node(b, y, ky, d)) == InOrder(b) + [y] + InOrder(d);
    assert InOrder(Node(a, x, k, b)) == InOrder(a) + [x] + InOrder(b);
    assert InOrder(a) + [x] + (InOrder(b) + [y] + InOrder(d)) == (InOrder(a) + [x] + InOrder(b)) + [y] + InOrder(d);
  }

  lemma {:induction false} SlotsLowRight(a: Tree, x: int, kx: Color, b: Tree, y: int, ky: Color, d: Tree)
    ensures Slots(LowRight(a, x, kx, b, y, ky, d)) == Slots(a) + {x} + Slots(b) + {y} + Slots(d)
  {
    assert Slots(Node(b, y, ky, d)) == Slots(b) + {y} + Slots(d);
  }

  lemma {:induction false} UniquePair(a: Tree, x: int, kx: Color, b: Tree, y: int, ky: Color, d: Tree)
    requires Unique(LowRight(a, x, kx, b, y, ky, d))
    ensures x != y && Unique(b)
    ensures forall i :: i in Slots(a) || i in Slots(b) || i in Slots(d) ==> i != x && i != y
    ensures forall i :: i in Slots(b) ==> i !in Slots(a) && i !in Slots(d)
  {
    assert Slots(Node(b, y, ky, d)) == Slots(b) + {y} + Slots(d);
    assert Unique(Node(b, y, ky, d));
  }

  /** Nothing but the two rotated slots, the middle subtree's root and the hook is written. */
  ghost predicate OnlyRotated(s: seq<Link>, s': seq<Link>, x: int, y: int, b: int, hook: int)
  {
    |s'| == |s| && forall i :: 0 <= i < |s| && i != x && i != y && i != b && i != hook ==> s'[i] == s[i]
  }

  /** The three subtrees of a rotation stay stored; the middle one changes parent from `p` to `q`. */
  lemma {:induction false} RotationFrame(s: seq<Link>, s': seq<Link>, a: Tree, x: int, b: Tree, y: int, d: Tree,
                                         hook: int, p: int, q: int)
    requires Holds(s, a, x) && Holds(s, b, p) && Holds(s, d, y) && Unique(b)
    requires OnlyRotated(s, s', x, y, Root(b), hook)
    requires forall i :: i in Slots(a) || i in Slots(b) || i in Slots(d) ==> i != x && i != y && (i != hook || i == NIL)
    requires forall i :: i in Slots(b) ==> i !in Slots(a) && i !in Slots(d)
    requires b.Node? ==> s'[b.id] == s[b.id].(parent := q)
    ensures Holds(s', a, x) && Holds(s', b, q) && Holds(s', d, y)
  {
    assert b.Node? ==> b.id in Slots(b);
    assert SameOn(s, s', Slots(a)) && SameOn(s, s', Slots(b) - {Root(b)}) && SameOn(s, s', Slots(d));
    HoldsFrame(s, s', a, x);
    HoldsReparent(s, s', b, p, q);
    HoldsFrame(s, s', d, y);
  }

  /** The links a rotation at `Hook(c)` reads, and that they belong to different slots. */
  ghost predicate RotationLinks(s: seq<Link>, root: int, c: Ctx, b: Tree, x: int, y: int, top: int)
  {
    && x != y && 0 <= x < |s| && 0 <= y < |s|
    && (b.Node? ==> 0 <= b.id < |s| && b.id != x && b.id != y && b.id != Hook(c))
    && (if c.Top? then root == top
        else 0 <= Hook(c) < |s| && Hook(c) != x && Hook(c) != y && (s[Hook(c)].left == top <==> c.InLeft?))
  }

  lemma {:induction false} LowRightSlots(c: Ctx, a: Tree, x: int, kx: Color, b: Tree, y: int, ky: Color, d: Tree)
    requires Unique(LowRight(a, x, kx, b, y, ky, d)) && Slots(LowRight(a, x, kx, b, y, ky, d)) !! Around(c)
    ensures x != y && x !in Around(c) && y !in Around(c)
    ensures b.Node? ==> b.id != x && b.id != y && b.id !in Around(c)
  {
    SlotsLowRight(a, x, kx, b, y, ky, d);
    UniquePair(a, x, kx, b, y, ky, d);
    assert b.Node? ==> b.id in Slots(b);
  }

  lemma {:induction false} LowRightHolds(s: seq<Link>, p: int, a: Tree, x: int, kx: Color, b: Tree, y: int, ky: Color,
                                         d: Tree)
    requires Holds(s, LowRight(a, x, kx, b, y, ky, d), p)
    ensures 0 <= x < |s| && 0 <= y < |s| && (b.Node? ==> 0 <= b.id < |s|)
    ensures s[x] == Link(Root(a), y, p, kx) && s[y] == Link(Root(b), Root(d), x, ky)
    ensures Holds(s, a, x) && Holds(s, b, y) && Holds(s, d, y)
  {
    assert Holds(s, Node(b, y, ky, d), x);
    assert Holds(s, b, y);
  }

  lemma {:induction false} LowLeftHolds(s: seq<Link>, p: int, a: Tree, x: int, kx: Color, b: Tree, y: int, ky: Color,
                                        d: Tree)
    requires Holds(s, LowLeft(a, x, kx, b, y, ky, d), p)
    ensures 0 <= x < |s| && 0 <= y < |s| && (b.Node? ==> 0 <= b.id < |s|)
    ensures s[y] == Link(x, Root(d), p, ky) && s[x] == Link(Root(a), Root(b), y, kx)
    ensures Holds(s, a, x) && Holds(s, b, x) && Holds(s, d, y)
  {
    assert Holds(s, Node(a, x, kx, b), y);
    assert Holds(s, b, x);
  }

  lemma {:induction false} LowRightLinks(s: seq<Link>, root: int, c: Ctx, a: Tree, x: int, kx: Color, b: Tree, y: int,
                                         ky: Color, d: Tree)
    requires Stores(s, root, Plug(c, LowRight(a, x, kx, b, y, ky, d)))
    ensures Holds(s, LowRight(a, x, kx, b, y, ky, d), Hook(c))
    ensures RotationLinks(s, root, c, b, x, y, x)
  {
    Window(s, root, c, LowRight(a, x, kx, b, y, ky, d));
    LowRightSlots(c, a, x, kx, b, y, ky, d);
    LowRightHolds(s, Hook(c), a, x, kx, b, y, ky, d);
  }

  lemma {:induction false} LowLeftLinks(s: seq<Link>, root: int, c: Ctx, a: Tree, x: int, kx: Color, b: Tree, y: int,
                                        ky: Color, d: Tree)
    requires Stores(s, root, Plug(c, LowLeft(a, x, kx, b, y, ky, d)))
    ensures Holds(s, LowLeft(a, x, kx, b, y, ky, d), Hook(c))
    ensures RotationLinks(s, root, c, b, x, y, y)
  {
    Window(s, root, c, LowLeft(a, x, kx, b, y, ky, d));
    ShapesAgree(a, x, kx, b, y, ky, d, kx, ky);
    LowRightSlots(c, a, x, kx, b, y, ky, d);
    LowLeftHolds(s, Hook(c), a, x, kx, b, y, ky, d);
  }

  /** The link writes of a left rotation, read back as a tree. */
  lemma {:induction false} RotateLeftStored(s: seq<Link>, s': seq<Link>, root: int, root': int, c: Ctx,
                         a: Tree, x: int, kx: Color, b: Tree, y: int, ky: Color, d: Tree)
    requires Stores(s, root, Plug(c, LowRight(a, x, kx, b, y, ky, d)))
    requires Holds(s, a, x) && Holds(s, b, y) && Holds(s, d, y)
    requires OnlyRotated(s, s', x, y, Root(b), Hook(c)) && 0 <= x < |s| && 0 <= y < |s|
    requires s'[x] == Link(Root(a), Root(b), y, kx) && s'[y] == Link(x, Root(d), Hook(c), ky)
    requires b.Node? ==> s'[b.id] == s[b.id].(parent := x)
    requires c.Top? ==> root' == y
    requires !c.Top? && 0 <= Hook(c) < |s| ==> root' == root && s'[Hook(c)] == Redirected(s[Hook(c)], c, y)
    ensures Stores(s', root', Plug(c, LowLeft(a, x, kx, b, y, ky, d)))
    ensures SameOutside(s, s', Slots(Plug(c, LowRight(a, x, kx, b, y, ky, d))))
  {
    hide Stores;
    var t, t' := LowRight(a, x, kx, b, y, ky, d), LowLeft(a, x, kx, b, y, ky, d);
    Window(s, root, c, t);
    SlotsLowRight(a, x, kx, b, y, ky, d);
    UniquePair(a, x, kx, b, y, ky, d);
    ShapesAgree(a, x, kx, b, y, ky, d, kx, ky);
    RotationFrame(s, s', a, x, b, y, d, Hook(c), y, x);
    assert Holds(s', Node(a, x, kx, b), y);
    Replace(s, s', root, root', c, t, t');
  }

  lemma {:induction false} RotateRightStored(s: seq<Link>, s': seq<Link>, root: int, root': int, c: Ctx,
                          a: Tree, x: int, kx: Color, b: Tree, y: int, ky: Color, d: Tree)
    requires Stores(s, root, Plug(c, LowLeft(a, x, kx, b, y, ky, d)))
    requires Holds(s, a, x) && Holds(s, b, x) && Holds(s, d, y)
    requires OnlyRotated(s, s', x, y, Root(b), Hook(c)) && 0 <= x < |s| && 0 <= y < |s|
    requires s'[x] == Link(Root(a), y, Hook(c), kx) && s'[y] == Link(Root(b), Root(d), x, ky)
    requires b.Node? ==> s'[b.id] == s[b.id].(parent := y)
    requires c.Top? ==> root' == x
    requires !c.Top? && 0 <= Hook(c) < |s| ==> root' == root && s'[Hook(c)] == Redirected(s[Hook(c)], c, x)
    ensures Stores(s', root', Plug(c, LowRight(a, x, kx, b, y, ky, d)))
    ensures SameOutside(s, s', Slots(Plug(c, LowLeft(a, x, kx, b, y, ky, d))))
  {
    hide Stores;
    var t, t' := LowLeft(a, x, kx, b, y, ky, d), LowRight(a, x, kx, b, y, ky, d);
    Window(s, root, c, t);
    ShapesAgree(a, x, kx, b, y, ky, d, kx, ky);
    SlotsLowRight(a, x, kx, b, y, ky, d);
    UniquePair(a, x, kx, b, y, ky, d);
    RotationFrame(s, s', a, x, b, y, d, Hook(c), x, y);
    assert Holds(s', Node(b, y, ky, d), x);
    Replace(s, s', root, root', c, t, t');
  }

  /** A change of shape below a context that keeps the order of the slots. */
  lemma {:induction false} SameOrderPlugged(c: Ctx, t: Tree, t': Tree)
    requires InOrder(t') == InOrder(t)
    ensures InOrder(Plug(c, t')) == InOrder(Plug(c, t))
    ensures Slots(Plug(c, t')) == Slots(Plug(c, t))
  {
    InOrderPlug(c, t);
    InOrderPlug(c, t');
    SlotsInOrder(Plug(c, t));
    SlotsInOrder(Plug(c, t'));
    var a, b := Slots(Plug(c, t)), Slots(Plug(c, t'));
    assert forall x :: x in a <==> x in b;
  }

  /** The pool stores a tree with the same slots in the same order as `t`, written only inside it. */
  ghost predicate Rearranged(s: seq<Link>, s': seq<Link>, t: Tree, t': Tree)
  {
    InOrder(t') == InOrder(t) && Slots(t') == Slots(t) && SameOutside(s, s', Slots(t))
  }

  lemma {:induction false} RearrangedTrans(s: seq<Link>, s': seq<Link>, s'': seq<Link>, t: Tree, t': Tree, t'': Tree)
    requires Rearranged(s, s', t, t') && Rearranged(s', s'', t', t'')
    ensures Rearranged(s, s'', t, t'')
  {}

  /** The subtree one step further up. */
  function Closed(c: Ctx, t: Tree): Tree
    requires !c.Top?
  {
    if c.InLeft? then Node(t, c.id, c.color, c.right) else Node(c.left, c.id, c.color, t)
  }

  function Sibling(c: Ctx): Tree
    requires !c.Top?
  {
    if c.InLeft? then c.right else c.left
  }

  /** Red parent, red uncle: recolouring moves the clash two levels up. */
  lemma {:induction false} RecolorFits(c: Ctx, t: Tree, h: nat)
    requires Fits(c, h) && Balanced(t, h) && RedFrame(c)
    ensures !c.up.Top? && c.up.color.Black?
    ensures !IsBlack(Sibling(c.up)) ==>
              && Fits(c.up.up, h + 1)
              && Balanced(Blacken(Closed(c, t)), h + 1)
              && Balanced(Blacken(Sibling(c.up)), h + 1)
  {
    var u := Sibling(c.up);
    assert Balanced(u, h);
  }

  /** Red parent, black uncle: what the rotations need. */
  lemma {:induction false} RotateFits(c: Ctx, t: Tree, h: nat)
    requires Fits(c, h) && Balanced(t, h) && RedFrame(c)
    ensures !c.up.Top? && c.up.color.Black?
    ensures Fits(c.up.up, h + 1) && Balanced(Sibling(c.up), h) && Balanced(Sibling(c), h) && IsBlack(Sibling(c))
    ensures t.Node? && t.color.Red? ==>
            IsBlack(t.left) && IsBlack(t.right) && Balanced(t.left, h) && Balanced(t.right, h)
  {}

  lemma {:induction false} RedLeaf(n: int, t: Tree)
    requires t == Node(Leaf, n, Red, Leaf)
    ensures InOrder(t) == [n] && Slots(t) == {n}
  {
    assert InOrder(Leaf) == [] && Slots(Leaf) == {};
  }

  class RbTree {
    const pool: array<Link>
    var root: int
    ghost var tree: Tree

    ghost predicate Valid()
      reads this, pool
    {
      Stores(pool[..], root, tree) && RedBlack(tree)
    }

    constructor (capacity: nat)
      ensures Valid() && fresh(pool) && pool.Length == capacity && tree == Leaf
    {
      pool := new Link[capacity](_ => Link(NIL, NIL, NIL, Black));
      root := NIL;
      tree := Leaf;
      new;
      assert Balanced(tree, 0);
    }

    method RotateLeft(x: int, ghost c: Ctx, ghost t: Tree)
      requires Stores(pool[..], root, Plug(c, t)) && t.Node? && t.right.Node? && t.id == x
      modifies this`root, pool
      ensures Stores(pool[..], root, Plug(c, RotatedLeft(t)))
      ensures Rearranged(old(pool[..]), pool[..], Plug(c, t), Plug(c, RotatedLeft(t)))
    {
      hide Holds;
      ghost var s := pool[..];
      ghost var a, b, d := t.left, t.right.left, t.right.right;
      LowRightLinks(s, root, c, a, x, t.color, b, t.right.id, t.right.color, d);
      LowRightHolds(s, Hook(c), a, x, t.color, b, t.right.id, t.right.color, d);
      var y := pool[x].right;
      pool[x] := pool[x].(right := pool[y].left);
      if pool[y].left != NIL {
        pool[pool[y].left] := pool[pool[y].left].(parent := x);
      }
      pool[y] := pool[y].(parent := pool[x].parent);
      var p := pool[x].parent;
      if p == NIL {
        root := y;
      } else if x == pool[p].left {
        pool[p] := pool[p].(left := y);
      } else {
        pool[p] := pool[p].(right := y);
      }
      pool[y] := pool[y].(left := x);
      pool[x] := pool[x].(parent := y);
      RotateLeftStored(s, pool[..], old(root), root, c, a, x, t.color, b, y, t.right.color, d);
      RotationKeepsOrder(a, x, t.color, b, y, t.right.color, d, t.color, t.right.color);
      SameOrderPlugged(c, t, RotatedLeft(t));
    }

    method RotateRight(y: int, ghost c: Ctx, ghost t: Tree)
      requires Stores(pool[..], root, Plug(c, t)) && t.Node? && t.left.Node? && t.id == y
      modifies this`root, pool
      ensures Stores(pool[..], root, Plug(c, RotatedRight(t)))
      ensures Rearranged(old(pool[..]), pool[..], Plug(c, t), Plug(c, RotatedRight(t)))
    {
      hide Holds;
      ghost var s := pool[..];
      ghost var a, b, d := t.left.left, t.left.right, t.right;
      LowLeftLinks(s, root, c, a, t.left.id, t.left.color, b, y, t.color, d);
      LowLeftHolds(s, Hook(c), a, t.left.id, t.left.color, b, y, t.color, d);
      var x := pool[y].left;
      pool[y] := pool[y].(left := pool[x].right);
      if pool[x].right != NIL {
        pool[pool[x].right] := pool[pool[x].right].(parent := y);
      }
      pool[x] := pool[x].(parent := pool[y].parent);
      var p := pool[y].parent;
      if p == NIL {
        root := x;
      } else if y == pool[p].left {
        pool[p] := pool[p].(left := x);
      } else {
        pool[p] := pool[p].(right := x);
      }
      pool[x] := pool[x].(right := y);
      pool[y] := pool[y].(parent := x);
      RotateRightStored(s, pool[..], old(root), root, c, a, x, t.left.color, b, y, t.color, d);
      RotationKeepsOrder(a, x, t.left.color, b, y, t.color, d, t.left.color, t.color);
      SameOrderPlugged(c, t, RotatedRight(t));
    }

    method Paint(x: int, k: Color, ghost c: Ctx, ghost t: Tree)
      requires Stores(pool[..], root, Plug(c, t)) && t.Node? && t.id == x
      modifies pool
      ensures Stores(pool[..], root, Plug(c, t.(color := k)))
      ensures Rearranged(old(pool[..]), pool[..], Plug(c, t), Plug(c, t.(color := k)))
    {
      ghost var s := pool[..];
      Window(s, root, c, t);
      pool[x] := pool[x].(color := k);
      HoldsFrame(s, pool[..], t.left, x);
      HoldsFrame(s, pool[..], t.right, x);
      Replace(s, pool[..], root, root, c, t, t.(color := k));
      SameOrderPlugged(c, t, t.(color := k));
    }

    /** Case 1 of the insert fixup: both children of `g` turn black and `g` turns red. */
    method Recolor(l: int, r: int, g: int, ghost c: Ctx, ghost t: Tree)
      requires Stores(pool[..], root, Plug(c, t)) && t.Node? && t.id == g
      requires t.left.Node? && t.right.Node? && l == t.left.id && r == t.right.id
      modifies pool
      ensures Stores(pool[..], root, Plug(c, Node(Blacken(t.left), g, Red, Blacken(t.right))))
      ensures Rearranged(old(pool[..]), pool[..], Plug(c, t), Plug(c, Node(Blacken(t.left), g, Red, Blacken(t.right))))
    {
      Paint(l, Black, InLeft(c, g, t.color, t.right), t.left);
      Paint(r, Black, InRight(Blacken(t.left), g, t.color, c), t.right);
      Paint(g, Red, c, Node(Blacken(t.left), g, t.color, Blacken(t.right)));
    }

    /** Case 3 of the insert fixup: `p` turns black, `g` turns red and sinks to its right. */
    method HoistLeftChild(p: int, g: int, ghost c: Ctx, ghost t: Tree)
      requires Stores(pool[..], root, Plug(c, t)) && t.Node? && t.id == g && t.left.Node? && p == t.left.id
      modifies this`root, pool
      ensures Stores(pool[..], root, Plug(c, Node(t.left.left, p, Black, Node(t.left.right, g, Red, t.right))))
      ensures Rearranged(old(pool[..]), pool[..], Plug(c, t),
                         Plug(c, Node(t.left.left, p, Black, Node(t.left.right, g, Red, t.right))))
    {
      Paint(p, Black, InLeft(c, g, t.color, t.right), t.left);
      Paint(g, Red, c, Node(Blacken(t.left), g, t.color, t.right));
      RotateRight(g, c, Node(Blacken(t.left), g, Red, t.right));
    }

    method HoistRightChild(p: int, g: int, ghost c: Ctx, ghost t: Tree)
      requires Stores(pool[..], root, Plug(c, t)) && t.Node? && t.id == g && t.right.Node? && p == t.right.id
      modifies this`root, pool
      ensures Stores(pool[..], root, Plug(c, Node(Node(t.left, g, Red, t.right.left), p, Black, t.right.right)))
      ensures Rearranged(old(pool[..]), pool[..], Plug(c, t),
                         Plug(c, Node(Node(t.left, g, Red, t.right.left), p, Black, t.right.right)))
    {
      Paint(p, Black, InRight(t.left, g, t.color, c), t.right);
      Paint(g, Red, c, Node(t.left, g, t.color, Blacken(t.right)));
      RotateLeft(g, c, Node(t.left, g, Red, Blacken(t.right)));
    }

    /** One round of the insert fixup when the red parent is a left child (mm/vmm.c:71-89). */
    method InsertStepLeft(z: int, ghost c: Ctx, ghost t: Tree, ghost h: nat)
      returns (z': int, ghost c': Ctx, ghost t': Tree, ghost h': nat)
      requires Stores(pool[..], root, Plug(c, t)) && RedAt(z, c, t, h) && RedFrame(c) && c.up.InLeft?
      modifies this`root, pool
      ensures Stores(pool[..], root, Plug(c', t')) && RedAt(z', c', t', h') && Depth(c') < Depth(c)
      ensures Rearranged(old(pool[..]), pool[..], Plug(c, t), Plug(c', t'))
    {
      ghost var up, g2, u2, P := c.up, c.up.up, c.up.right, Closed(c, t);
      Peek(pool[..], root, c, t);
      Peek(pool[..], root, up, P);
      Peek(pool[..], root, InRight(P, up.id, Black, g2), u2);
      var p := pool[z].parent;
      var g := pool[p].parent;
      var u := pool[g].right;
      if u != NIL && pool[u].color == Red {
        RecolorFits(c, t, h);
        Recolor(p, u, g, g2, Node(P, g, Black, u2));
        z', c', t', h' := g, g2, Node(Blacken(P), g, Red, Blacken(u2)), h + 1;
      } else {
        RotateFits(c, t, h);
        z', t' := z, t;
        if z == pool[p].right {
          z' := p;
          RotateLeft(z', up, P);
          t' := Node(c.left, p, Red, t.left);
          P := Node(t', z, Red, t.right);
          Peek(pool[..], root, InLeft(up, z, Red, t.right), t');
          Peek(pool[..], root, up, P);
          p := pool[z'].parent;
          g := pool[p].parent;
        }
        HoistLeftChild(p, g, g2, Node(P, g, Black, u2));
        c', h' := InLeft(g2, p, Black, Node(P.right, g, Red, u2)), h;
      }
    }

    /** The mirror image (mm/vmm.c:90-109). */
    method InsertStepRight(z: int, ghost c: Ctx, ghost t: Tree, ghost h: nat)
      returns (z': int, ghost c': Ctx, ghost t': Tree, ghost h': nat)
      requires Stores(pool[..], root, Plug(c, t)) && RedAt(z, c, t, h) && RedFrame(c) && c.up.InRight?
      modifies this`root, pool
      ensures Stores(pool[..], root, Plug(c', t')) && RedAt(z', c', t', h') && Depth(c') < Depth(c)
      ensures Rearranged(old(pool[..]), pool[..], Plug(c, t), Plug(c', t'))
    {
      ghost var up, g2, u2, P := c.up, c.up.up, c.up.left, Closed(c, t);
      Peek(pool[..], root, c, t);
      Peek(pool[..], root, up, P);
      Peek(pool[..], root, InLeft(g2, up.id, Black, P), u2);
      var p := pool[z].parent;
      var g := pool[p].parent;
      var u := pool[g].left;
      if u != NIL && pool[u].color == Red {
        RecolorFits(c, t, h);
        Recolor(u, p, g, g2, Node(u2, g, Black, P));
        z', c', t', h' := g, g2, Node(Blacken(u2), g, Red, Blacken(P)), h + 1;
      } else {
        RotateFits(c, t, h);
        z', t' := z, t;
        if z == pool[p].left {
          z' := p;
          RotateRight(z', up, P);
          t' := Node(t.right, p, Red, c.right);
          P := Node(t.left, z, Red, t');
          Peek(pool[..], root, InRight(t.left, z, Red, up), t');
          Peek(pool[..], root, up, P);
          p := pool[z'].parent;
          g := pool[p].parent;
        }
        HoistRightChild(p, g, g2, Node(u2, g, Black, P));
        c', h' := InRight(Node(u2, g, Red, P.left), p, Black, g2), h;
      }
    }

    /** mm/vmm.c:67-112. */
    method InsertFixup(n: int, ghost c0: Ctx, ghost t0: Tree, ghost h0: nat) returns (ghost t': Tree)
      requires Stores(pool[..], root, Plug(c0, t0)) && RedAt(n, c0, t0, h0)
      modifies this`root, pool
      ensures Stores(pool[..], root, t') && RedBlack(t')
      ensures Rearranged(old(pool[..]), pool[..], Plug(c0, t0), t')
    {
      var z := n;
      ghost var c, t, h := c0, t0, h0;
      Peek(pool[..], root, c, t);
      while pool[z].parent != NIL && pool[pool[z].parent].color == Red
        invariant Stores(pool[..], root, Plug(c, t)) && RedAt(z, c, t, h)
        invariant 0 <= z < pool.Length && pool[z].parent == Hook(c)
        invariant !c.Top? ==> 0 <= c.id < pool.Length && pool[c.id].color == c.color
        invariant Rearranged(old(pool[..]), pool[..], Plug(c0, t0), Plug(c, t))
        decreases Depth(c)
      {
        ghost var s, T := pool[..], Plug(c, t);
        RotateFits(c, t, h);
        Peek(pool[..], root, c.up, Closed(c, t));
        var p := pool[z].parent;
        if p == pool[pool[p].parent].left {
          z, c, t, h := InsertStepLeft(z, c, t, h);
        } else {
          z, c, t, h := InsertStepRight(z, c, t, h);
        }
        RearrangedTrans(old(pool[..]), s, pool[..], Plug(c0, t0), T, Plug(c, t));
        Peek(pool[..], root, c, t);
      }
      ghost var s, T := pool[..], Plug(c, t);
      if !c.Top? {
        PlugBalanced(c, t, h);
      } else {
        assert Balanced(Blacken(t), h + 1);
      }
      PlugNode(c, t);
      Peek(s, root, Top, T);
      Paint(root, Black, Top, T);
      t' := T.(color := Black);
      RearrangedTrans(old(pool[..]), s, pool[..], Plug(c0, t0), T, t');
    }

    method Attach(n: int, parent: int, asLeft: bool, ghost c: Ctx)
      requires Stores(pool[..], root, Plug(c, Leaf)) && Hook(c) == parent
      requires !c.Top? ==> (asLeft <==> c.InLeft?)
      requires 0 <= n < pool.Length && n !in Slots(Plug(c, Leaf))
      modifies this`root, pool
      ensures Stores(pool[..], root, Plug(c, Node(Leaf, n, Red, Leaf)))
      ensures SameOutside(old(pool[..]), pool[..], Slots(Plug(c, Leaf)) + {n})
    {
      ghost var s := pool[..];
      Window(s, root, c, Leaf);
      if parent == NIL {
        root := n;
      } else if asLeft {
        pool[parent] := pool[parent].(left := n);
      } else {
        pool[parent] := pool[parent].(right := n);
      }
      pool[n] := Link(NIL, NIL, parent, Red);
      Replace(s, pool[..], old(root), root, c, Leaf, Node(Leaf, n, Red, Leaf));
    }

    /** Hang slot `n` as a red leaf below `parent` and rebalance (mm/vmm.c:378-382, kernel/sched/eevdf.c:242-245). */
    method Insert(n: int, parent: int, asLeft: bool, ghost c: Ctx)
      requires Valid() && tree == Plug(c, Leaf) && Hook(c) == parent
      requires !c.Top? ==> (asLeft <==> c.InLeft?)
      requires 0 <= n < pool.Length && n !in Slots(tree)
      modifies this, pool
      ensures Valid()
      ensures InOrder(tree) == Before(c) + [n] + After(c)
      ensures SameOutside(old(pool[..]), pool[..], old(Slots(tree)) + {n})
    {
      ghost var g: nat :| Balanced(tree, g);
      ghost var h := UnplugBalanced(c, Leaf, g);
      ghost var t := Node(Leaf, n, Red, Leaf);
      Attach(n, parent, asLeft, c);
      RedLeaf(n, t);
      InOrderPlug(c, t);
      UniquePlug(c, t);
      UniquePlug(c, Leaf);
      tree := InsertFixup(n, c, t, h);
    }

    // ------------------------------------------------------------- deletion

    /** Put the subtree `t'`, rooted at `v`, where `u` hangs (mm/vmm.c:120-129). */
    method Transplant(u: int, v: int, ghost c: Ctx, ghost t': Tree, ghost q: int)
      requires StoresCtx(pool[..], root, c, u) && 0 <= u < pool.Length && pool[u].parent == Hook(c)
      requires !c.Top? ==> 0 <= c.id < pool.Length && (pool[c.id].left == u <==> c.InLeft?)
      requires Root(t') == v && Holds(pool[..], t', q) && Unique(t') && Slots(t') !! Around(c)
      modifies this`root, pool
      ensures Stores(pool[..], root, Plug(c, t'))
      ensures SameOutside(old(pool[..]), pool[..], {Hook(c), v})
    {
      ghost var s := pool[..];
      if pool[u].parent == NIL {
        root := v;
      } else if u == pool[pool[u].parent].left {
        pool[pool[u].parent] := pool[pool[u].parent].(left := v);
      } else {
        pool[pool[u].parent] := pool[pool[u].parent].(right := v);
      }
      if v != NIL {
        pool[v] := pool[v].(parent := pool[u].parent);
      }
      HoldsReparent(s, pool[..], t', q, Hook(c));
      Fill(s, pool[..], old(root), root, c, u, t');
    }

    method TreeMin(n: int, ghost c: Ctx, ghost t: Tree) returns (y: int)
      requires Stores(pool[..], root, Plug(c, t)) && t.Node? && t.id == n
      ensures y == MinNode(t).id
    {
      y := n;
      ghost var d, u := c, t;
      Peek(pool[..], root, d, u);
      while pool[y].left != NIL
        invariant Stores(pool[..], root, Plug(d, u)) && u.Node? && u.id == y && MinNode(u) == MinNode(t)
        invariant 0 <= y < pool.Length && pool[y].left == Root(u.left)
        decreases u
      {
        d, u := InLeft(d, u.id, u.color, u.right), u.left;
        y := pool[y].left;
        Peek(pool[..], root, d, u);
      }
      Peek(pool[..], root, InLeft(d, u.id, u.color, u.right), u.left);
    }

    /** Case 4: `w` takes over the colour of `p`, and a rotation makes up for the missing black node. */
    method FinishLeft(p: int, w: int, ghost up: Ctx, ghost k: Color, ghost t: Tree, ghost W: Tree)
      requires Stores(pool[..], root, Plug(up, Node(t, p, k, W))) && W.Node? && W.id == w && W.right.Node?
      modifies this`root, pool
      ensures Stores(pool[..], root, Plug(up, Node(Node(t, p, Black, W.left), w, k, Blacken(W.right))))
      ensures Rearranged(old(pool[..]), pool[..], Plug(up, Node(t, p, k, W)),
                         Plug(up, Node(Node(t, p, Black, W.left), w, k, Blacken(W.right))))
    {
      Peek(pool[..], root, up, Node(t, p, k, W));
      Paint(w, pool[p].color, InRight(t, p, k, up), W);
      ghost var W1 := Node(W.left, w, k, W.right);
      Paint(p, Black, up, Node(t, p, k, W1));
      ghost var c1 := InRight(t, p, Black, up);
      Peek(pool[..], root, c1, W1);
      Peek(pool[..], root, InRight(W.left, w, k, c1), W.right);
      Paint(pool[w].right, Black, InRight(W.left, w, k, c1), W.right);
      assert Plug(InRight(W.left, w, k, c1), W.right) == Plug(c1, W1);
      assert Plug(InRight(W.left, w, k, c1), Blacken(W.right)) == Plug(c1, Node(W.left, w, k, Blacken(W.right)));
      RotateLeft(p, up, Node(t, p, Black, Node(W.left, w, k, Blacken(W.right))));
    }

    method FinishRight(p: int, w: int, ghost up: Ctx, ghost k: Color, ghost t: Tree, ghost W: Tree)
      requires Stores(pool[..], root, Plug(up, Node(W, p, k, t))) && W.Node? && W.id == w && W.left.Node?
      modifies this`root, pool
      ensures Stores(pool[..], root, Plug(up, Node(Blacken(W.left), w, k, Node(W.right, p, Black, t))))
      ensures Rearranged(old(pool[..]), pool[..], Plug(up, Node(W, p, k, t)),
                         Plug(up, Node(Blacken(W.left), w, k, Node(W.right, p, Black, t))))
    {
      Peek(pool[..], root, up, Node(W, p, k, t));
      Paint(w, pool[p].color, InLeft(up, p, k, t), W);
      ghost var W1 := Node(W.left, w, k, W.right);
      Paint(p, Black, up, Node(W1, p, k, t));
      ghost var c1 := InLeft(up, p, Black, t);
      Peek(pool[..], root, c1, W1);
      Peek(pool[..], root, InLeft(c1, w, k, W.right), W.left);
      Paint(pool[w].left, Black, InLeft(c1, w, k, W.right), W.left);
      assert Plug(InLeft(c1, w, k, W.right), W.left) == Plug(c1, W1);
      assert Plug(InLeft(c1, w, k, W.right), Blacken(W.left)) == Plug(c1, Node(Blacken(W.left), w, k, W.right));
      RotateRight(p, up, Node(Node(Blacken(W.left), w, k, W.right), p, Black, t));
    }

    /** Cases 2 to 4 with a black sibling `w` (mm/vmm.c:143-166). */
    method DeleteTailLeft(p: int, w0: int, ghost up: Ctx, ghost k: Color, ghost t: Tree, ghost W0: Tree, ghost h: nat)
      returns (x': int, p': int, ghost c': Ctx, ghost t': Tree, ghost h': nat)
      requires Stores(pool[..], root, Plug(up, Node(t, p, k, W0))) && LowPair(up, k, t, W0, h) && W0.id == w0
      modifies this`root, pool
      ensures Stores(pool[..], root, Plug(c', t')) && LowAt(x', p', c', t', h') && LowerPair(up, k, c', t')
      ensures Rearranged(old(pool[..]), pool[..], Plug(up, Node(t, p, k, W0)), Plug(c', t'))
    {
      var w := w0;
      ghost var c, W := InRight(t, p, k, up), W0;
      Peek(pool[..], root, c, W);
      Peek(pool[..], root, InLeft(c, w, W.color, W.right), W.left);
      Peek(pool[..], root, InRight(W.left, w, W.color, c), W.right);
      if (pool[w].left == NIL || pool[pool[w].left].color == Black)
        && (pool[w].right == NIL || pool[pool[w].right].color == Black) {
        Paint(w, Red, c, W);
        t' := Node(t, p, k, W.(color := Red));
        Peek(pool[..], root, up, t');
        x', p', c', h' := p, pool[p].parent, up, if k.Red? then h else h + 1;
      } else {
        x', p', c', t', h' := DeleteTurnLeft(p, w, up, k, t, W, h);
      }
    }

    /** The last two cases: the sibling has a red child. */
    method DeleteTurnLeft(p: int, w0: int, ghost up: Ctx, ghost k: Color, ghost t: Tree, ghost W0: Tree, ghost h: nat)
      returns (x': int, p': int, ghost c': Ctx, ghost t': Tree, ghost h': nat)
      requires Stores(pool[..], root, Plug(up, Node(t, p, k, W0))) && LowPair(up, k, t, W0, h) && W0.id == w0
      requires !(IsBlack(W0.left) && IsBlack(W0.right))
      modifies this`root, pool
      ensures Stores(pool[..], root, Plug(c', t')) && LowAt(x', p', c', t', h') && LowerPair(up, k, c', t')
      ensures Rearranged(old(pool[..]), pool[..], Plug(up, Node(t, p, k, W0)), Plug(c', t'))
    {
      var w := w0;
      ghost var c, W := InRight(t, p, k, up), W0;
      Peek(pool[..], root, c, W);
      Peek(pool[..], root, InRight(W.left, w, W.color, c), W.right);
      if pool[w].right == NIL || pool[pool[w].right].color == Black {
        HoistLeftChild(pool[w].left, w, c, W);
        W := Node(W.left.left, W.left.id, Black, Node(W.left.right, w, Red, W.right));
        Peek(pool[..], root, c, W);
        w := pool[p].right;
      }
      FinishLeft(p, w, up, k, t, W);
      t' := Plug(up, Node(Node(t, p, Black, W.left), w, k, Blacken(W.right)));
      h' := FinishBalanced(up, k, Node(t, p, Black, W.left), w, Blacken(W.right), h);
      x', p', c' := root, NIL, Top;
    }

    /** One round of the delete fixup when `x` is a left child (mm/vmm.c:134-166); `p` is its parent.
        `x` may be NIL, so the parent is passed along. */
    method DeleteStepLeft(x: int, p: int, ghost c: Ctx, ghost t: Tree, ghost h: nat)
      returns (x': int, p': int, ghost c': Ctx, ghost t': Tree, ghost h': nat)
      requires Stores(pool[..], root, Plug(c, t)) && LowAt(x, p, c, t, h) && IsBlack(t) && c.InLeft?
      modifies this`root, pool
      ensures Stores(pool[..], root, Plug(c', t')) && LowAt(x', p', c', t', h') && Lowness(c', t') < Lowness(c, t)
      ensures Rearranged(old(pool[..]), pool[..], Plug(c, t), Plug(c', t'))
    {
      ghost var up, k, W := c.up, c.color, c.right;
      LowSibling(c, t, h);
      Peek(pool[..], root, InRight(t, p, k, up), W);
      var w := pool[p].right;
      if pool[w].color == Red {
        HoistRightChild(w, p, up, Node(t, p, k, W));
        up, k, W := InLeft(up, w, Black, W.right), Red, W.left;
        Peek(pool[..], root, InRight(t, p, k, up), W);
        w := pool[p].right;
      }
      x', p', c', t', h' := DeleteTailLeft(p, w, up, k, t, W, h);
    }

    /** The mirror image (mm/vmm.c:176-199). */
    method DeleteTailRight(p: int, w0: int, ghost up: Ctx, ghost k: Color, ghost t: Tree, ghost W0: Tree, ghost h: nat)
      returns (x': int, p': int, ghost c': Ctx, ghost t': Tree, ghost h': nat)
      requires Stores(pool[..], root, Plug(up, Node(W0, p, k, t))) && LowPair(up, k, t, W0, h) && W0.id == w0
      modifies this`root, pool
      ensures Stores(pool[..], root, Plug(c', t')) && LowAt(x', p', c', t', h') && LowerPair(up, k, c', t')
      ensures Rearranged(old(pool[..]), pool[..], Plug(up, Node(W0, p, k, t)), Plug(c', t'))
    {
      var w := w0;
      ghost var c, W := InLeft(up, p, k, t), W0;
      Peek(pool[..], root, c, W);
      Peek(pool[..], root, InLeft(c, w, W.color, W.right), W.left);
      Peek(pool[..], root, InRight(W.left, w, W.color, c), W.right);
      if (pool[w].right == NIL || pool[pool[w].right].color == Black)
        && (pool[w].left == NIL || pool[pool[w].left].color == Black) {
        Paint(w, Red, c, W);
        t' := Node(W.(color := Red), p, k, t);
        Peek(pool[..], root, up, t');
        x', p', c', h' := p, pool[p].parent, up, if k.Red? then h else h + 1;
      } else {
        x', p', c', t', h' := DeleteTurnRight(p, w, up, k, t, W, h);
      }
    }

    method DeleteTurnRight(p: int, w0: int, ghost up: Ctx, ghost k: Color, ghost t: Tree, ghost W0: Tree, ghost h: nat)
      returns (x': int, p': int, ghost c': Ctx, ghost t': Tree, ghost h': nat)
      requires Stores(pool[..], root, Plug(up, Node(W0, p, k, t))) && LowPair(up, k, t, W0, h) && W0.id == w0
      requires !(IsBlack(W0.left) && IsBlack(W0.right))
      modifies this`root, pool
      ensures Stores(pool[..], root, Plug(c', t')) && LowAt(x', p', c', t', h') && LowerPair(up, k, c', t')
      ensures Rearranged(old(pool[..]), pool[..], Plug(up, Node(W0, p, k, t)), Plug(c', t'))
    {
      var w := w0;
      ghost var c, W := InLeft(up, p, k, t), W0;
      Peek(pool[..], root, c, W);
      Peek(pool[..], root, InLeft(c, w, W.color, W.right), W.left);
      if pool[w].left == NIL || pool[pool[w].left].color == Black {
        HoistRightChild(pool[w].right, w, c, W);
        W := Node(Node(W.left, w, Red, W.right.left), W.right.id, Black, W.right.right);
        Peek(pool[..], root, c, W);
        w := pool[p].left;
      }
      FinishRight(p, w, up, k, t, W);
      t' := Plug(up, Node(Blacken(W.left), w, k, Node(W.right, p, Black, t)));
      h' := FinishBalanced(up, k, Blacken(W.left), w, Node(W.right, p, Black, t), h);
      x', p', c' := root, NIL, Top;
    }

    /** One round of the delete fixup when `x` is a right child (mm/vmm.c:168-199). */
    method DeleteStepRight(x: int, p: int, ghost c: Ctx, ghost t: Tree, ghost h: nat)
      returns (x': int, p': int, ghost c': Ctx, ghost t': Tree, ghost h': nat)
      requires Stores(pool[..], root, Plug(c, t)) && LowAt(x, p, c, t, h) && IsBlack(t) && c.InRight?
      modifies this`root, pool
      ensures Stores(pool[..], root, Plug(c', t')) && LowAt(x', p', c', t', h') && Lowness(c', t') < Lowness(c, t)
      ensures Rearranged(old(pool[..]), pool[..], Plug(c, t), Plug(c', t'))
    {
      ghost var up, k, W := c.up, c.color, c.left;
      LowSibling(c, t, h);
      Peek(pool[..], root, InLeft(up, p, k, t), W);
      var w := pool[p].left;
      if pool[w].color == Red {
        HoistLeftChild(w, p, up, Node(W, p, k, t));
        up, k, W := InRight(W.left, w, Black, up), Red, W.right;
        Peek(pool[..], root, InLeft(up, p, k, t), W);
        w := pool[p].left;
      }
      x', p', c', t', h' := DeleteTailRight(p, w, up, k, t, W, h);
    }

    /** mm/vmm.c:131-204: restore the black heights after a black node was cut out above `x0`. */
    method DeleteFixup(x0: int, p0: int, ghost c0: Ctx, ghost t0: Tree, ghost h0: nat) returns (ghost t': Tree)
      requires Stores(pool[..], root, Plug(c0, t0)) && LowAt(x0, p0, c0, t0, h0)
      modifies this`root, pool
      ensures Stores(pool[..], root, t') && RedBlack(t')
      ensures Rearranged(old(pool[..]), pool[..], Plug(c0, t0), t')
    {
      var x, p := x0, p0;
      ghost var c, t, h := c0, t0, h0;
      PeekTop(pool[..], root, c, t);
      while x != root && (x == NIL || pool[x].color == Black)
        invariant Stores(pool[..], root, Plug(c, t)) && LowAt(x, p, c, t, h)
        invariant x == root <==> c.Top?
        invariant t.Node? ==> 0 <= x < pool.Length && pool[x].color == t.color
        invariant Rearranged(old(pool[..]), pool[..], Plug(c0, t0), Plug(c, t))
        decreases Lowness(c, t)
      {
        ghost var s, T := pool[..], Plug(c, t);
        LowSibling(c, t, h);
        SideOfLow(pool[..], root, c, t);
        if x == pool[p].left {
          x, p, c, t, h := DeleteStepLeft(x, p, c, t, h);
        } else {
          x, p, c, t, h := DeleteStepRight(x, p, c, t, h);
        }
        RearrangedTrans(old(pool[..]), s, pool[..], Plug(c0, t0), T, Plug(c, t));
        PeekTop(pool[..], root, c, t);
      }
      ghost var s, T := pool[..], Plug(c, t);
      t' := Plug(c, Blacken(t));
      PlugBalanced(c, Blacken(t), if IsBlack(t) then h else h + 1);
      if x != NIL {
        Paint(x, Black, c, t);
      }
      RearrangedTrans(old(pool[..]), s, pool[..], Plug(c0, t0), T, t');
    }

    /** The successor lies deeper: its right subtree moves up, and it takes over the rest (mm/vmm.c:229-232). */
    method DetachFar(z: int, y: int, ghost c: Ctx, ghost t: Tree)
      requires Stores(pool[..], root, Plug(c, t)) && t.Node? && t.id == z && t.left.Node? && t.right.Node?
      requires y == MinNode(t.right).id && t.right.left.Node? && 0 <= y < pool.Length
      modifies this`root, pool
      ensures Detached(pool[..], root, c, t, MinNode(t.right), MinRest(t.right), old(pool[y].parent))
      ensures SameOutside(old(pool[..]), pool[..], Slots(Plug(c, t)))
    {
      ghost var R, q := MinRest(t.right), pool[y].parent;
      MinOutside(pool[..], root, c, t);
      LiftRight(z, y, c, t);
      ghost var s1 := pool[..];
      Peek(s1, root, c, Node(t.left, z, t.color, R));
      Peek(s1, root, InRight(t.left, z, t.color, c), R);
      TakeRight(y, z);
      FarDetached(s1, pool[..], root, c, t, R, q);
    }

    /** The right subtree of the successor `y` takes its place; the links of `y` itself stay. */
    method LiftRight(z: int, y: int, ghost c: Ctx, ghost t: Tree)
      requires Stores(pool[..], root, Plug(c, t)) && t.Node? && t.id == z && t.left.Node? && t.right.Node?
      requires y == MinNode(t.right).id && t.right.left.Node? && 0 <= y < pool.Length
      modifies this`root, pool
      ensures Stores(pool[..], root, Plug(c, Node(t.left, z, t.color, MinRest(t.right))))
      ensures pool[y] == old(pool[y]) && pool[y].left == NIL && pool[y].color == MinNode(t.right).color
      ensures SameOutside(old(pool[..]), pool[..], Slots(MinRest(t.right)))
    {
      ghost var s0, Y := pool[..], MinNode(t.right);
      ghost var cz := InRight(t.left, z, t.color, c);
      ghost var cy := Graft(MinCtx(t.right), cz);
      MinLinks(s0, root, c, t);
      MinOutside(s0, root, c, t);
      Transplant(y, pool[y].right, cy, Y.right, y);
      PlugGraft(MinCtx(t.right), cz, Y.right);
    }

    /** `y` takes over the right subtree of `z`. */
    method TakeRight(y: int, z: int)
      requires 0 <= y < pool.Length && 0 <= z < pool.Length && 0 <= pool[z].right < pool.Length && y != z
      requires pool[z].right != y
      modifies pool
      ensures var s, r := old(pool[..]), old(pool[z].right);
        pool[..] == s[y := s[y].(right := r)][r := s[r].(parent := y)]
    {
      pool[y] := pool[y].(right := pool[z].right);
      pool[pool[y].right] := pool[pool[y].right].(parent := y);
    }

    /** Two-child deletion, first half (mm/vmm.c:220-233): the successor `y` of `z` leaves its place
        and takes what is left of the right subtree. */
    method DetachMin(z: int, y: int, ghost c: Ctx, ghost t: Tree)
      requires Stores(pool[..], root, Plug(c, t)) && t.Node? && t.id == z && t.left.Node? && t.right.Node?
      requires y == MinNode(t.right).id && 0 <= y < pool.Length
      modifies this`root, pool
      ensures Detached(pool[..], root, c, t, MinNode(t.right), MinRest(t.right), old(pool[y].parent))
      ensures SameOutside(old(pool[..]), pool[..], Slots(Plug(c, t)))
    {
      MinLinks(pool[..], root, c, t);
      MinPlug(t.right);
      if pool[y].parent == z {
        NearDetached(pool[..], root, c, t);
        var x := pool[y].right;
        if x != NIL {
          // The link already says so.
          assert pool[x] == pool[x].(parent := y);
          pool[x] := pool[x].(parent := y);
        }
        assert pool[..] == old(pool[..]);
      } else {
        DetachFar(z, y, c, t);
      }
    }

    /** Second half (mm/vmm.c:234-238): `y` takes the place, the left subtree and the colour of `z`. */
    method Adopt(z: int, y: int, ghost c: Ctx, ghost t: Tree, ghost Y: Tree, ghost R: Tree, ghost q: int)
      requires t.Node? && t.id == z && t.left.Node? && Y.Node? && Y.id == y
      requires Detached(pool[..], root, c, t, Y, R, q)
      modifies this`root, pool
      ensures Stores(pool[..], root, Plug(c, Node(t.left, y, t.color, R)))
      ensures SameOutside(old(pool[..]), pool[..], Around(c) + Slots(Node(t.left, y, t.color, R)))
    {
      ghost var s2 := pool[..];
      ghost var Y1 := Node(Leaf, y, Y.color, R);
      assert Slots(Y1) == {y} + Slots(R);
      Transplant(z, y, c, Y1, q);
      assert pool[z] == s2[z];
      HoldsFrame(s2, pool[..], t.left, z);
      HangLeft(z, y, c, Y.color, t.left, R);
      Window(pool[..], root, c, Node(t.left, y, Y.color, R));
      Paint(y, pool[z].color, c, Node(t.left, y, Y.color, R));
    }

    /** The left subtree of `z` moves below `y`, which has none (mm/vmm.c:235-237). */
    method HangLeft(z: int, y: int, ghost c: Ctx, ghost k: Color, ghost l: Tree, ghost R: Tree)
      requires Stores(pool[..], root, Plug(c, Node(Leaf, y, k, R))) && l.Node? && Holds(pool[..], l, z)
      requires 0 <= z < pool.Length && pool[z].left == l.id && z !in Slots(Node(l, y, k, R))
      requires Unique(Node(l, y, k, R)) && Slots(Node(l, y, k, R)) !! Around(c)
      modifies pool
      ensures Stores(pool[..], root, Plug(c, Node(l, y, k, R))) && pool[z] == old(pool[z])
      ensures SameOutside(old(pool[..]), pool[..], Slots(Node(l, y, k, R)))
    {
      ghost var s := pool[..];
      Window(s, root, c, Node(Leaf, y, k, R));
      TakeLeft(y, z);
      HoldsReparent(s, pool[..], l, z, y);
      Replace(s, pool[..], root, root, InLeft(c, y, k, R), Leaf, l);
      UniquePlug(c, Node(l, y, k, R));
    }

    /** `y` takes over the left subtree of `z`. */
    method TakeLeft(y: int, z: int)
      requires 0 <= y < pool.Length && 0 <= z < pool.Length && 0 <= pool[z].left < pool.Length && y != z
      requires pool[z].left != y
      modifies pool
      ensures var s, l := old(pool[..]), old(pool[z].left);
        pool[..] == s[y := s[y].(left := l)][l := s[l].(parent := y)]
    {
      pool[y] := pool[y].(left := pool[z].left);
      pool[pool[y].left] := pool[pool[y].left].(parent := y);
    }

    /** Cut out a node with two children: its successor takes its place. The context returned is the
        one around the spot the successor left, which is where a black node may be missing. */
    method CutInner(z: int, ghost c: Ctx, ghost t: Tree)
      returns (x: int, p: int, yColor: Color, ghost c': Ctx, ghost t': Tree)
      requires Stores(pool[..], root, Plug(c, t)) && t.Node? && t.id == z && t.left.Node? && t.right.Node?
      modifies this`root, pool
      ensures var Y := MinNode(t.right);
        && c' == Graft(MinCtx(t.right), InRight(t.left, Y.id, t.color, c)) && t' == Y.right
        && x == Root(t') && p == Hook(c') && yColor == Y.color
      ensures Stores(pool[..], root, Plug(c', t'))
      ensures SameOutside(old(pool[..]), pool[..], Slots(Plug(c, t)))
    {
      ghost var Y, spine, R := MinNode(t.right), MinCtx(t.right), MinRest(t.right);
      Peek(pool[..], root, c, t);
      Peek(pool[..], root, InRight(t.left, z, t.color, c), t.right);
      var y := TreeMin(pool[z].right, InRight(t.left, z, t.color, c), t.right);
      MinLinks(pool[..], root, c, t);
      GraftNotTop(spine, InRight(t.left, z, t.color, c));
      GraftNotTop(spine, InRight(t.left, y, t.color, c));
      yColor := pool[y].color;
      x := pool[y].right;
      p := if pool[y].parent == z then y else pool[y].parent;
      ghost var q := pool[y].parent;
      RestSlots(c, t);
      DetachMin(z, y, c, t);
      Adopt(z, y, c, t, Y, R, q);
      c', t' := Graft(spine, InRight(t.left, y, t.color, c)), Y.right;
      PlugGraft(spine, InRight(t.left, y, t.color, c), t');
    }

    /** Cut out a node with at most one child (mm/vmm.c:211-218). */
    method CutOuter(z: int, v: int, ghost c: Ctx, ghost t: Tree, ghost t': Tree)
      requires Stores(pool[..], root, Plug(c, t)) && t.Node? && t.id == z
      requires (t.left.Leaf? && t' == t.right) || (t.right.Leaf? && t' == t.left)
      requires v == Root(t')
      modifies this`root, pool
      ensures Stores(pool[..], root, Plug(c, t'))
      ensures SameOutside(old(pool[..]), pool[..], Slots(Plug(c, t)))
    {
      Window(pool[..], root, c, t);
      Peek(pool[..], root, c, t);
      HoldsPlug(pool[..], c, t);
      Transplant(z, v, c, t', z);
    }

    /** mm/vmm.c:206-242: take slot `z` out of the tree. */
    method Delete(z: int)
      requires Valid() && z in Slots(tree)
      modifies this, pool
      ensures Valid()
      ensures InOrder(tree) == Without(old(InOrder(tree)), z)
      ensures SameOutside(old(pool[..]), pool[..], old(Slots(tree)))
    {
      ghost var c, t := PathTo(tree, z), SubtreeAt(tree, z);
      PathPlug(tree, z);
      ghost var g: nat :| Balanced(tree, g);
      ghost var h := UnplugBalanced(c, t, g);
      Peek(pool[..], root, c, t);
      PeekChildren(pool[..], root, c, t);
      ghost var s0 := pool[..];
      ghost var c', t' := c, t;
      var x, p, yColor := NIL, pool[z].parent, pool[z].color;
      if pool[z].left == NIL {
        x := pool[z].right;
        t' := t.right;
        CutOuter(z, x, c, t, t');
        CutOuterOrder(c, t, t');
        h := CutOuterFits(c, t, t', h);
      } else if pool[z].right == NIL {
        x := pool[z].left;
        t' := t.left;
        CutOuter(z, x, c, t, t');
        CutOuterOrder(c, t, t');
        h := CutOuterFits(c, t, t', h);
      } else {
        x, p, yColor, c', t' := CutInner(z, c, t);
        CutInnerOrder(c, t);
        h := CutInnerFits(c, t, g);
      }
      ghost var T := Plug(c', t');
      ghost var s1 := pool[..];
      tree := T;
      WithoutSlots(old(tree), T, z);
      if yColor == Black {
        tree := DeleteFixup(x, p, c', t', h);
      } else {
        PlugBalanced(c', t', h);
      }
    }
  }

  lemma {:induction false} PeekChildren(s: seq<Link>, root: int, c: Ctx, t: Tree)
    requires Stores(s, root, Plug(c, t)) && t.Node?
    ensures t.left.Leaf? <==> Root(t.left) == NIL
    ensures t.right.Leaf? <==> Root(t.right) == NIL
  {
    Peek(s, root, InLeft(c, t.id, t.color, t.right), t.left);
    Peek(s, root, InRight(t.left, t.id, t.color, c), t.right);
  }

  lemma {:induction false} RestSlots(c: Ctx, t: Tree)
    requires Unique(Plug(c, t)) && t.Node? && t.right.Node?
    ensures Around(c) + Slots(Node(t.left, MinNode(t.right).id, t.color, MinRest(t.right))) <= Slots(Plug(c, t))
  {
    UniquePlug(c, t);
    MinCut(t.right);
  }

  lemma {:induction false} WithoutSlots(t: Tree, t': Tree, z: int)
    requires InOrder(t') == Without(InOrder(t), z)
    ensures Slots(t') <= Slots(t)
  {
    SlotsInOrder(t);
    SlotsInOrder(t');
    WithoutMembers(InOrder(t), z);
    var a, b := Slots(t), Slots(t');
    assert forall x :: x in b ==> x in a;
  }

  lemma {:induction false} CutOrder(c: Ctx, t: Tree, rest: seq<int>)
    requires t.Node? && Unique(Plug(c, t)) && rest == Before(c) + (InOrder(t.left) + InOrder(t.right)) + After(c)
    ensures rest == Without(InOrder(Plug(c, t)), t.id)
  {
    InOrderPlug(c, t);
    UniqueInOrder(Plug(c, t));
    Regroup(Before(c), InOrder(t.left), t.id, InOrder(t.right), After(c));
    WithoutMiddle(Before(c) + InOrder(t.left), t.id, InOrder(t.right) + After(c));
  }

  lemma {:induction false} Regroup(a: seq<int>, l: seq<int>, x: int, r: seq<int>, b: seq<int>)
    ensures a + (l + [x] + r) + b == (a + l) + [x] + (r + b)
    ensures a + (l + r) + b == (a + l) + (r + b)
  {}

  lemma {:induction false} CutOuterOrder(c: Ctx, t: Tree, t': Tree)
    requires t.Node? && Unique(Plug(c, t))
    requires (t.left.Leaf? && t' == t.right) || (t.right.Leaf? && t' == t.left)
    ensures InOrder(Plug(c, t')) == Without(InOrder(Plug(c, t)), t.id)
  {
    InOrderPlug(c, t');
    assert InOrder(t') == InOrder(t.left) + InOrder(t.right);
    CutOrder(c, t, InOrder(Plug(c, t')));
  }

  lemma {:induction false} CutInnerOrder(c: Ctx, t: Tree)
    requires t.Node? && t.right.Node? && Unique(Plug(c, t))
    ensures var Y := MinNode(t.right);
      InOrder(Plug(Graft(MinCtx(t.right), InRight(t.left, Y.id, t.color, c)), Y.right)) ==
        Without(InOrder(Plug(c, t)), t.id)
  {
    var Y, R := MinNode(t.right), MinRest(t.right);
    PlugGraft(MinCtx(t.right), InRight(t.left, Y.id, t.color, c), Y.right);
    MinIsFirst(t.right);
    var T := Node(t.left, Y.id, t.color, R);
    InOrderPlug(c, T);
    assert InOrder(T) == InOrder(t.left) + InOrder(t.right);
    CutOrder(c, t, InOrder(Plug(c, T)));
  }

  /** Cutting out an outer node leaves its place one black node short if the node was black, and fits otherwise. */
  lemma {:induction false} CutOuterFits(c: Ctx, t: Tree, t': Tree, h: nat) returns (h': nat)
    requires t.Node? && Fits(c, h) && Balanced(t, h) && (RedFrame(c) || c.Top? ==> IsBlack(t))
    requires t' == t.left || t' == t.right
    ensures t.color.Black? ==> LowAt(Root(t'), Hook(c), c, t', h')
    ensures t.color.Red? ==> Fits(c, h') && Balanced(t', h') && IsBlack(t')
  {
    h' := if t.color.Red? then h else h - 1;
  }

  lemma {:induction false} CutInnerFits(c: Ctx, t: Tree, g: nat) returns (h': nat)
    requires t.Node? && t.right.Node? && IsBlack(Plug(c, t)) && Balanced(Plug(c, t), g)
    ensures var Y := MinNode(t.right);
      var c', t' := Graft(MinCtx(t.right), InRight(t.left, Y.id, t.color, c)), Y.right;
      && (Y.color.Black? ==> LowAt(Root(t'), Hook(c'), c', t', h'))
      && (Y.color.Red? ==> Fits(c', h') && Balanced(t', h') && IsBlack(t'))
  {
    var Y, spine, cz := MinNode(t.right), MinCtx(t.right), InRight(t.left, t.id, t.color, c);
    MinPlug(t.right);
    PlugGraft(spine, cz, Y);
    var h := UnplugBalanced(Graft(spine, cz), Y, g);
    FitsRenamed(spine, t.left, t.id, Y.id, t.color, c, h);
    var c' := Graft(spine, InRight(t.left, Y.id, t.color, c));
    GraftNotTop(spine, InRight(t.left, Y.id, t.color, c));
    GraftNotTop(spine, cz);
    h' := CutOuterFits(c', Y, Y.right, h);
  }

  /** What remains of a tree when its leftmost node is cut out. */
  function MinRest(t: Tree): Tree
    requires t.Node?
  {
    Plug(MinCtx(t), MinNode(t).right)
  }

  lemma {:induction false} MinCut(t: Tree)
    requires t.Node? && Unique(t)
    ensures Unique(MinRest(t)) && Slots(t) == Slots(MinRest(t)) + {MinNode(t).id} && MinNode(t).id !in Slots(MinRest(t))
    ensures t.left.Leaf? <==> MinCtx(t).Top?
    ensures t.left.Node? ==> MinRest(t).Node? && MinRest(t).id == t.id && Hook(MinCtx(t)) in Slots(MinRest(t))
  {
    var spine, Y := MinCtx(t), MinNode(t);
    MinPlug(t);
    UniquePlug(spine, Y);
    UniquePlug(spine, Y.right);
    if t.left.Node? {
      PlugGraft(MinCtx(t.left), InLeft(Top, t.id, t.color, t.right), Y.right);
    }
  }

  /** The links around the successor of a node with two children. */
  lemma {:induction false} MinLinks(s: seq<Link>, root: int, c: Ctx, t: Tree)
    requires Stores(s, root, Plug(c, t)) && t.Node? && t.left.Node? && t.right.Node?
    ensures var Y, cz := MinNode(t.right), InRight(t.left, t.id, t.color, c);
      var cy := Graft(MinCtx(t.right), cz);
      && 0 <= Y.id < |s| && s[Y.id] == Link(NIL, Root(Y.right), Hook(cy), Y.color)
      && StoresCtx(s, root, cy, Y.id) && Holds(s, Y.right, Y.id) && Unique(Y.right) && Slots(Y.right) !! Around(cy)
      && !cy.Top? && 0 <= cy.id < |s| && (s[cy.id].left == Y.id <==> cy.InLeft?)
      && (Hook(cy) == t.id <==> MinCtx(t.right).Top?)
      && Plug(cy, Y) == Plug(c, t)
  {
    var Y, spine, cz := MinNode(t.right), MinCtx(t.right), InRight(t.left, t.id, t.color, c);
    var cy := Graft(spine, cz);
    MinPlug(t.right);
    PlugGraft(spine, cz, Y);
    GraftNotTop(spine, cz);
    Window(s, root, c, t);
    MinCut(t.right);
    Window(s, root, cy, Y);
    Peek(s, root, cy, Y);
    HoldsPlug(s, cy, Y);
  }

  lemma {:induction false} MinOutside(s: seq<Link>, root: int, c: Ctx, t: Tree)
    requires Stores(s, root, Plug(c, t)) && t.Node? && t.left.Node? && t.right.Node? && t.right.left.Node?
    ensures var Y, R := MinNode(t.right), MinRest(t.right);
      var cy := Graft(MinCtx(t.right), InRight(t.left, t.id, t.color, c));
      && Y.id !in Slots(Node(t.left, t.id, t.color, R)) && Y.id !in Around(c)
      && R.Node? && Hook(cy) != Y.id && (Y.right.Node? ==> Y.right.id != Y.id)
      && Slots(Plug(c, t)) == Around(c) + Slots(t.left) + {t.id} + {Y.id} + Slots(R)
      && Hook(cy) in Slots(R) && (Y.right.Node? ==> Y.right.id in Slots(R))
  {
    var spine := MinCtx(t.right);
    UniquePlug(c, t);
    MinCut(t.right);
    UniquePlug(spine, MinNode(t.right).right);
    GraftNotTop(spine, InRight(t.left, t.id, t.color, c));
  }

  /** Between the two halves of a two-child deletion: `y` heads the rest `R` of the right subtree,
      the left subtree still hangs from `z`, and `c` still points at `z`. */
  ghost predicate Detached(s: seq<Link>, root: int, c: Ctx, t: Tree, Y: Tree, R: Tree, q: int)
    requires t.Node? && Y.Node?
  {
    && StoresCtx(s, root, c, t.id) && 0 <= t.id < |s|
    && s[t.id].left == Root(t.left) && s[t.id].parent == Hook(c) && s[t.id].color == t.color
    && (!c.Top? ==> 0 <= c.id < |s| && (s[c.id].left == t.id <==> c.InLeft?))
    && Holds(s, t.left, t.id) && Holds(s, Node(Leaf, Y.id, Y.color, R), q)
    && Unique(Node(t.left, Y.id, Y.color, R)) && Slots(Node(t.left, Y.id, Y.color, R)) !! Around(c)
    && t.id !in Slots(Node(t.left, Y.id, Y.color, R)) && t.id !in Around(c)
  }

  lemma {:induction false} NearDetached(s: seq<Link>, root: int, c: Ctx, t: Tree)
    requires Stores(s, root, Plug(c, t)) && t.Node? && t.left.Node? && t.right.Node? && t.right.left.Leaf?
    ensures MinNode(t.right) == t.right && MinRest(t.right) == t.right.right
    ensures Detached(s, root, c, t, t.right, t.right.right, t.id)
    ensures t.right.right.Node? ==> 0 <= t.right.right.id < |s| && s[t.right.right.id].parent == t.right.id
  {
    Window(s, root, c, t);
    HoldsPlug(s, c, t);
    assert Holds(s, t.right, t.id);
    assert Holds(s, t.right.right, t.right.id);
    assert Slots(t.right) == {t.right.id} + Slots(t.right.right);
    assert Slots(t) == Slots(t.left) + {t.id} + Slots(t.right);
  }

  lemma {:induction false} FarFrames(s1: seq<Link>, s2: seq<Link>, c: Ctx, l: Tree, z: int, y: int, R: Tree)
    requires R.Node? && 0 <= y < |s1| && 0 <= R.id < |s1|
    requires s2 == s1[y := s1[y].(right := R.id)][R.id := s1[R.id].(parent := y)]
    requires HoldsCtx(s1, c, z) && Holds(s1, l, z) && Holds(s1, R, z) && Unique(R)
    requires y !in Around(c) && y !in Slots(l) && y !in Slots(R) && R.id !in Around(c) && R.id !in Slots(l)
    ensures HoldsCtx(s2, c, z) && Holds(s2, l, z) && Holds(s2, R, y)
  {
    hide Holds, HoldsCtx, Around, Unique;
    HoldsCtxFrame(s1, s2, c, z);
    HoldsFrame(s1, s2, l, z);
    HoldsReparent(s1, s2, R, z, y);
  }

  lemma {:induction false} FarDetached(s1: seq<Link>, s2: seq<Link>, root: int, c: Ctx, t: Tree, R: Tree, q: int)
    requires t.Node? && t.right.Node? && R.Node?
    requires Stores(s1, root, Plug(c, Node(t.left, t.id, t.color, R)))
    requires var Y := MinNode(t.right);
      && 0 <= Y.id < |s1| && Y.id !in Slots(Node(t.left, t.id, t.color, R)) && Y.id !in Around(c)
      && s1[Y.id].left == NIL && s1[Y.id].parent == q && s1[Y.id].color == Y.color
      && 0 <= R.id < |s1| && s2 == s1[Y.id := s1[Y.id].(right := R.id)][R.id := s1[R.id].(parent := Y.id)]
    ensures Detached(s2, root, c, t, MinNode(t.right), R, q)
  {
    hide Hook;
    var y := MinNode(t.right).id;
    var T := Node(t.left, t.id, t.color, R);
    Window(s1, root, c, T);
    HoldsPlug(s1, c, T);
    assert Slots(T) == Slots(t.left) + {t.id} + Slots(R);
    assert R.id in Slots(R);
    FarFrames(s1, s2, c, t.left, t.id, y, R);
    assert Holds(s2, Node(Leaf, y, MinNode(t.right).color, R), q);
  }

  /** A low black subtree `t` next to a black sibling `W` below a node of colour `k`. */
  ghost predicate LowPair(up: Ctx, k: Color, t: Tree, W: Tree, h: nat)
  {
    && Balanced(t, h) && IsBlack(t)
    && W.Node? && W.color.Black? && Balanced(W.left, h) && Balanced(W.right, h)
    && (if k.Red? then Fits(up, h + 1) && !RedFrame(up) && !up.Top? else Fits(up, h + 2))
  }

  ghost predicate LowerPair(up: Ctx, k: Color, c': Ctx, t': Tree)
  {
    Lowness(c', t') <= 1 || Lowness(c', t') <= Depth(up) + (if k.Red? then 0 else 1)
  }

  /** `x` is the root pointer exactly when nothing is above it, also when `x` is NIL. */
  lemma {:induction false} PeekTop(s: seq<Link>, root: int, c: Ctx, t: Tree)
    requires Stores(s, root, Plug(c, t))
    ensures Root(t) == root <==> c.Top?
    ensures t.Node? ==> 0 <= t.id < |s| && s[t.id].color == t.color
    ensures Root(t) == NIL <==> t.Leaf?
  {
    Peek(s, root, c, t);
    HoldsPlug(s, c, t);
    if !c.Top? { TopSlotHeld(s, c, Root(t)); }
  }

  lemma {:induction false} TopSlotHeld(s: seq<Link>, c: Ctx, hole: int)
    requires !c.Top? && HoldsCtx(s, c, hole)
    ensures 0 <= TopSlot(c, hole)
  {
    if !c.up.Top? { TopSlotHeld(s, c.up, c.id); }
  }

  /** The left link of the parent tells the side even when the subtree is empty, because its sibling is not. */
  lemma {:induction false} SideOfLow(s: seq<Link>, root: int, c: Ctx, t: Tree)
    requires Stores(s, root, Plug(c, t)) && !c.Top? && Sibling(c).Node?
    ensures 0 <= c.id < |s| && (s[c.id].left == Root(t) <==> c.InLeft?)
  {
    Peek(s, root, c, t);
    if c.InRight? { Peek(s, root, InLeft(c.up, c.id, c.color, t), c.left); }
  }

  lemma {:induction false} FinishBalanced(up: Ctx, k: Color, l: Tree, w: int, r: Tree, h: nat) returns (g: nat)
    requires Balanced(l, h + 1) && Balanced(r, h + 1) && IsBlack(l) && IsBlack(r)
    requires if k.Red? then Fits(up, h + 1) && !RedFrame(up) && !up.Top? else Fits(up, h + 2)
    ensures Balanced(Plug(up, Node(l, w, k, r)), g) && IsBlack(Plug(up, Node(l, w, k, r)))
  {
    PlugBalanced(up, Node(l, w, k, r), if k.Red? then h + 1 else h + 2);
    g :| Balanced(Plug(up, Node(l, w, k, r)), g);
  }

  /** The subtree `t` at `x` is one black node short: `c` expects black height `h + 1`. */
  ghost predicate LowAt(x: int, p: int, c: Ctx, t: Tree, h: nat)
  {
    && x == Root(t) && p == Hook(c) && Fits(c, h + 1)
    && (if IsBlack(t) then Balanced(t, h) else Balanced(Blacken(t), h + 1))
  }

  function Lowness(c: Ctx, t: Tree): nat
  {
    Depth(c) + if IsBlack(t) then 1 else 0
  }

  /** The sibling of a low subtree is never empty; if it is red, the rotation gives a black one. */
  lemma {:induction false} LowSibling(c: Ctx, t: Tree, h: nat)
    requires Fits(c, h + 1) && !c.Top?
    ensures Sibling(c).Node?
    ensures Sibling(c).color.Red? ==> c.color.Black? && Fits(c.up, h + 2)
    ensures Sibling(c).color.Red? ==> var w := Sibling(c);
      && IsBlack(w.left) && IsBlack(w.right) && Balanced(w.left, h + 1) && Balanced(w.right, h + 1)
      && w.left.Node? && w.right.Node?
  {}

  lemma {:induction false} PlugNode(c: Ctx, t: Tree)
    requires t.Node?
    ensures Plug(c, t).Node?
  {
    if !c.Top? { PlugNode(c.up, Closed(c, t)); }
  }

  /** `z` is a red node: `t` is its subtree, red-black in itself, and only its parent may clash with it. */
  ghost predicate RedAt(z: int, c: Ctx, t: Tree, h: nat)
  {
    t.Node? && t.id == z && t.color.Red? && Fits(c, h) && Balanced(t, h)
  }
}
