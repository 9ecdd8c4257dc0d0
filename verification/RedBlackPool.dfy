/**
 How a pool of tree links stores a tree, and what a local rewrite of the links does to it.
 Everything here is about the pool as a value (`seq<Link>`); the class that rewrites the
 pool in place is `RbTree`.
 */
module RedBlackPool {
  import opened RedBlackTree

  datatype Link = Link(left: int, right: int, parent: int, color: Color)

  /** The pool stores `t` as the child of slot `parent`, with mutually consistent links. */
  ghost predicate Holds(s: seq<Link>, t: Tree, parent: int)
  {
    match t
    case Leaf => true
    case Node(l, id, k, r) =>
      && 0 <= id < |s|
      && s[id] == Link(Root(l), Root(r), parent, k)
      && Holds(s, l, id)
      && Holds(s, r, id)
  }

  /** The pool stores everything of `c` around a subtree whose root is `hole`. */
  ghost predicate HoldsCtx(s: seq<Link>, c: Ctx, hole: int)
  {
    match c
    case Top => true
    case InLeft(up, id, k, r) =>
      && 0 <= id < |s|
      && s[id] == Link(hole, Root(r), Hook(up), k)
      && Holds(s, r, id)
      && HoldsCtx(s, up, id)
    case InRight(l, id, k, up) =>
      && 0 <= id < |s|
      && s[id] == Link(Root(l), hole, Hook(up), k)
      && Holds(s, l, id)
      && HoldsCtx(s, up, id)
  }

  function TopSlot(c: Ctx, hole: int): int
  {
    if c.Top? then hole else TopSlot(c.up, c.id)
  }

  lemma {:induction false} TopSlotInside(c: Ctx, hole: int)
    requires !c.Top?
    ensures TopSlot(c, hole) in Around(c)
  {
    if !c.up.Top? { TopSlotInside(c.up, c.id); }
  }

  /** `root` and the pool represent exactly the tree `t`. */
  ghost predicate Stores(s: seq<Link>, root: int, t: Tree)
  {
    root == Root(t) && Holds(s, t, NIL) && Unique(t)
  }

  lemma {:induction false} HoldsPlug(s: seq<Link>, c: Ctx, t: Tree)
    ensures Holds(s, Plug(c, t), NIL) <==> HoldsCtx(s, c, Root(t)) && Holds(s, t, Hook(c))
    ensures Root(Plug(c, t)) == TopSlot(c, Root(t))
  {
    match c
    case Top =>
    case InLeft(up, id, k, r) => HoldsPlug(s, up, Node(t, id, k, r));
    case InRight(l, id, k, up) => HoldsPlug(s, up, Node(l, id, k, t));
  }

  /** The links of `s` and `s'` agree outside the slots of `ids`. */
  ghost predicate SameOutside(s: seq<Link>, s': seq<Link>, ids: set<int>)
  {
    |s'| == |s| && forall i :: 0 <= i < |s| && i !in ids ==> s'[i] == s[i]
  }

  /** ... and here inside them. */
  ghost predicate SameOn(s: seq<Link>, s': seq<Link>, ids: set<int>)
  {
    |s'| == |s| && forall i :: 0 <= i < |s| && i in ids ==> s'[i] == s[i]
  }

  /** Only the slots of a tree matter to it. */
  lemma {:induction false} HoldsFrame(s: seq<Link>, s': seq<Link>, t: Tree, parent: int)
    requires Holds(s, t, parent) && SameOn(s, s', Slots(t))
    ensures Holds(s', t, parent)
  {
    if t.Node? {
      HoldsFrame(s, s', t.left, t.id);
      HoldsFrame(s, s', t.right, t.id);
    }
  }

  /** Hanging a tree from another slot rewrites the parent link of its root and nothing else. */
  lemma {:induction false} HoldsReparent(s: seq<Link>, s': seq<Link>, t: Tree, parent: int, parent': int)
    requires Holds(s, t, parent) && SameOn(s, s', Slots(t) - {Root(t)}) && Unique(t)
    requires t.Node? ==> s'[t.id] == s[t.id].(parent := parent')
    ensures Holds(s', t, parent')
  {
    if t.Node? {
      HoldsFrame(s, s', t.left, t.id);
      HoldsFrame(s, s', t.right, t.id);
    }
  }

  lemma {:induction false} HoldsCtxFrame(s: seq<Link>, s': seq<Link>, c: Ctx, hole: int)
    requires HoldsCtx(s, c, hole) && SameOn(s, s', Around(c))
    ensures HoldsCtx(s', c, hole)
  {
    match c
    case Top =>
    case InLeft(up, id, k, r) =>
      HoldsFrame(s, s', r, id);
      HoldsCtxFrame(s, s', up, id);
    case InRight(l, id, k, up) =>
      HoldsFrame(s, s', l, id);
      HoldsCtxFrame(s, s', up, id);
  }

  /** A slot's link with the child on the side of the hole redirected. */
  function Redirected(link: Link, c: Ctx, child: int): Link
  {
    match c
    case Top => link
    case InLeft(_, _, _, _) => link.(left := child)
    case InRight(_, _, _, _) => link.(right := child)
  }

  /** What the links say at a subtree inside a stored tree. */
  lemma {:induction false} Window(s: seq<Link>, root: int, c: Ctx, t: Tree)
    requires Stores(s, root, Plug(c, t))
    ensures HoldsCtx(s, c, Root(t)) && Holds(s, t, Hook(c))
    ensures Unique(t) && UniqueCtx(c) && Slots(t) !! Around(c)
    ensures Slots(Plug(c, t)) == Slots(t) + Around(c)
    ensures c.Top? ==> root == Root(t)
    ensures !c.Top? ==> 0 <= Hook(c) < |s| && Hook(c) in Around(c)
    ensures !c.Top? && t.Node? ==> (s[Hook(c)].left == t.id <==> c.InLeft?)
  {
    HoldsPlug(s, c, t);
    UniquePlug(c, t);
  }

  /** The link of a subtree's root, and the link that leads to it. */
  lemma {:induction false} Peek(s: seq<Link>, root: int, c: Ctx, t: Tree)
    requires Stores(s, root, Plug(c, t))
    ensures t.Node? ==> 0 <= t.id < |s| && s[t.id] == Link(Root(t.left), Root(t.right), Hook(c), t.color)
    ensures c.Top? ==> root == Root(t)
    ensures !c.Top? ==> 0 <= c.id < |s| && s[c.id].parent == Hook(c.up) && s[c.id].color == c.color
    ensures !c.Top? && c.InLeft? ==> s[c.id].left == Root(t) && s[c.id].right == Root(c.right)
    ensures !c.Top? && c.InRight? ==> s[c.id].right == Root(t) && s[c.id].left == Root(c.left)
    ensures !c.Top? && t.Node? ==> (s[c.id].left == t.id <==> c.InLeft?) && (s[c.id].right == t.id <==> c.InRight?)
    ensures !c.Top? && t.Node? ==> root != t.id
  {
    HoldsPlug(s, c, t);
    UniquePlug(c, t);
    if !c.Top? { TopSlotInside(c, Root(t)); }
  }

  /** The pool stores the context `c` around slot `hole`, whatever hangs below `hole`. */
  ghost predicate StoresCtx(s: seq<Link>, root: int, c: Ctx, hole: int)
  {
    root == TopSlot(c, hole) && HoldsCtx(s, c, hole) && UniqueCtx(c)
  }

  /** Filling the hole: it is enough to store the new subtree and redirect one child link. */
  lemma {:induction false} Fill(s: seq<Link>, s': seq<Link>, root: int, root': int, c: Ctx, hole: int, t': Tree)
    requires StoresCtx(s, root, c, hole) && SameOn(s, s', Around(c) - {Hook(c)})
    requires Holds(s', t', Hook(c)) && Unique(t') && Slots(t') !! Around(c)
    requires c.Top? ==> root' == Root(t')
    requires !c.Top? && 0 <= Hook(c) < |s| ==> root' == root && s'[Hook(c)] == Redirected(s[Hook(c)], c, Root(t'))
    ensures Stores(s', root', Plug(c, t'))
  {
    HoldsPlug(s', c, t');
    UniquePlug(c, t');
    match c
    case Top =>
    case InLeft(up, id, k, r) =>
      HoldsFrame(s, s', r, id);
      HoldsCtxFrame(s, s', up, id);
    case InRight(l, id, k, up) =>
      HoldsFrame(s, s', l, id);
      HoldsCtxFrame(s, s', up, id);
  }

  /** Replacing a subtree. */
  lemma {:induction false} Replace(s: seq<Link>, s': seq<Link>, root: int, root': int, c: Ctx, t: Tree, t': Tree)
    requires Stores(s, root, Plug(c, t)) && SameOn(s, s', Around(c) - {Hook(c)})
    requires Holds(s', t', Hook(c)) && Unique(t') && Slots(t') !! Around(c)
    requires c.Top? ==> root' == Root(t')
    requires !c.Top? && 0 <= Hook(c) < |s| ==> root' == root && s'[Hook(c)] == Redirected(s[Hook(c)], c, Root(t'))
    ensures Stores(s', root', Plug(c, t'))
  {
    HoldsPlug(s, c, t);
    UniquePlug(c, t);
    Fill(s, s', root, root', c, Root(t), t');
  }
}
