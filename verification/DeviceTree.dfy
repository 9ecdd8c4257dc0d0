/**
 Devicetrees as values and flattened to tokens (sections 5.4.1 and 5.4.2 of the Devicetree
 Specification), and the search for memory in them (mm/pmm.c:76-183).
 */
module DeviceTree {
  import opened Bits

  type Bytes = seq<nat>

  datatype Prop = Prop(name: Bytes, nameoff: nat, data: Bytes)

  /** What a node holds, in order. */
  datatype Items =
    | NoMore
    | AfterNop(rest: Items)
    | AfterProp(prop: Prop, rest: Items)
    | AfterChild(node: Node, rest: Items)

  datatype Node = Node(name: Bytes, items: Items)

  datatype Token = Begin(name: Bytes) | Property(prop: Prop) | End | Nop | Fin

  const MEMORY: Bytes := [109, 101, 109, 111, 114, 121]
  const REG: Bytes := [114, 101, 103]
  const ADDRESS_CELLS: Bytes := [35, 97, 100, 100, 114, 101, 115, 115, 45, 99, 101, 108, 108, 115]
  const SIZE_CELLS: Bytes := [35, 115, 105, 122, 101, 45, 99, 101, 108, 108, 115]

  /** The name begins with "memory". */
  predicate IsMemory(name: Bytes)
  {
    |name| >= 6 && name[..6] == MEMORY
  }

  // ------------------------------------------------------------ cells

  /** A big-endian 32-bit word. */
  function Be32(b: Bytes, p: nat): nat
    requires p + 4 <= |b|
  {
    b[p] * 0x100_0000 + b[p + 1] * 0x1_0000 + b[p + 2] * 0x100 + b[p + 3]
  }

  datatype Cells = Cells(address: int, size: int)

  function Int32(v: nat): int
  {
    if v >= 0x8000_0000 then v - TWO32 else v
  }

  /** Root properties that change the cell counts; other properties do not (mm/pmm.c:131-139). */
  function CellsAfter(p: Prop, c: Cells): Cells
  {
    if |p.data| < 4 then c
    else if p.name == ADDRESS_CELLS then c.(address := Int32(Be32(p.data, 0)))
    else if p.name == SIZE_CELLS then c.(size := Int32(Be32(p.data, 0)))
    else c
  }

  datatype Fold = Fold(value: nat, at: nat)

  /** Up to `n` cells from `q` on, as far as the data goes, in 64 bits (mm/pmm.c:148-157). */
  function Gather(data: Bytes, q: nat, n: int, acc: nat): Fold
    decreases |data| - q
  {
    if n <= 0 || q + 4 > |data| then Fold(acc, q)
    else Gather(data, q + 4, n - 1, (acc * TWO32 + Be32(data, q)) % TWO64)
  }

  datatype Region = Region(base: nat, size: nat)

  function Count(n: int): int
  {
    if n > 0 then n else 2
  }

  /** The first tuple of a "reg" property. */
  function Decode(data: Bytes, c: Cells): Region
  {
    var a := Gather(data, 0, Count(c.address), 0);
    Region(a.value, Gather(data, a.at, Count(c.size), 0).value)
  }

  // -------------------------------------------- the search in the tree

  /** The data of every "reg" of every node named memory or memory@..., in pre-order. */
  function Regs(n: Node): seq<Bytes>
  {
    ItemRegs(n.items, IsMemory(n.name))
  }

  function ItemRegs(items: Items, memory: bool): seq<Bytes>
  {
    match items
    case NoMore => []
    case AfterNop(rest) => ItemRegs(rest, memory)
    case AfterProp(p, rest) => (if memory && p.name == REG then [p.data] else []) + ItemRegs(rest, memory)
    case AfterChild(n, rest) => Regs(n) + ItemRegs(rest, memory)
  }

  /** The cell counts the root's properties give, two each if they say nothing. */
  function RootCells(items: Items, c: Cells): Cells
  {
    match items
    case NoMore => c
    case AfterNop(rest) => RootCells(rest, c)
    case AfterProp(p, rest) => RootCells(rest, CellsAfter(p, c))
    case AfterChild(_, rest) => RootCells(rest, c)
  }

  /** Properties come before children, in every node. */
  predicate WellFormed(n: Node)
  {
    WellFormedItems(n.items)
  }

  predicate WellFormedItems(items: Items)
  {
    match items
    case NoMore => true
    case AfterNop(rest) => WellFormedItems(rest)
    case AfterProp(_, rest) => WellFormedItems(rest)
    case AfterChild(n, rest) => WellFormed(n) && WellFormedItems(rest) && NoProps(rest)
  }

  predicate NoProps(items: Items)
  {
    match items
    case NoMore => true
    case AfterNop(rest) => NoProps(rest)
    case AfterProp(_, _) => false
    case AfterChild(_, rest) => NoProps(rest)
  }

  datatype Answer = None | Found(region: Region)

  /** The first "reg" of the first such node that has one, with the root's cell counts. */
  function MemoryOf(root: Node): Answer
  {
    var rs := Regs(root);
    if rs == [] then None else Found(Decode(rs[0], RootCells(root.items, Cells(2, 2))))
  }

  // ------------------------------------------- the search over tokens

  function Tokens(n: Node): seq<Token>
  {
    [Begin(n.name)] + ItemTokens(n.items) + [End]
  }

  function ItemTokens(items: Items): seq<Token>
  {
    match items
    case NoMore => []
    case AfterNop(rest) => [Nop] + ItemTokens(rest)
    case AfterProp(p, rest) => [Property(p)] + ItemTokens(rest)
    case AfterChild(n, rest) => Tokens(n) + ItemTokens(rest)
  }

  /** Depth, whether the node entered last is a memory node, and the cell counts so far. */
  datatype Cursor = Cursor(depth: nat, memory: bool, cells: Cells)

  function Moved(t: Token, s: Cursor): Cursor
  {
    match t
    case Begin(name) => Cursor(s.depth + 1, IsMemory(name), s.cells)
    case Property(p) => if s.depth == 1 then s.(cells := CellsAfter(p, s.cells)) else s
    case End => Cursor(if s.depth > 0 then s.depth - 1 else 0, false, s.cells)
    case Nop => s
    case Fin => s
  }

  predicate Hits(t: Token, s: Cursor)
  {
    t.Property? && s.memory && t.prop.name == REG
  }

  /** The loop of mm/pmm.c:97-181. */
  function Scan(ts: seq<Token>, s: Cursor): Answer
  {
    if ts == [] || ts[0].Fin? then None
    else if Hits(ts[0], s) then Found(Decode(ts[0].prop.data, Moved(ts[0], s).cells))
    else Scan(ts[1..], Moved(ts[0], s))
  }

  /** One token, then the rest. */
  lemma {:induction false} ScanFirst(t: Token, rest: seq<Token>, s: Cursor)
    requires !t.Fin?
    ensures Scan([t] + rest, s) == if Hits(t, s) then Found(Decode(t.prop.data, Moved(t, s).cells))
            else Scan(rest, Moved(t, s))
  {
    assert ([t] + rest)[1..] == rest;
  }

  /** Below the root, a node's tokens give the node's first "reg", or nothing happens. */
  lemma {:induction false} ScanNode(n: Node, rest: seq<Token>, s: Cursor)
    requires WellFormed(n) && s.depth >= 1
    ensures Scan(Tokens(n) + rest, s) ==
            if Regs(n) != [] then Found(Decode(Regs(n)[0], s.cells)) else Scan(rest, Cursor(s.depth, false, s.cells))
    decreases n
  {
    assert Tokens(n) + rest == [Begin(n.name)] + (ItemTokens(n.items) + [End] + rest);
    ScanFirst(Begin(n.name), ItemTokens(n.items) + [End] + rest, s);
    ScanItems(n.items, rest, Moved(Begin(n.name), s));
  }

  lemma {:induction false} Regrouped(head: seq<Token>, more: Items, rest: seq<Token>) returns (tail: seq<Token>)
    ensures tail == ItemTokens(more) + [End] + rest && head + ItemTokens(more) + [End] + rest == head + tail
  {
    hide ItemTokens;
    tail := ItemTokens(more) + [End] + rest;
  }

  lemma {:induction false} ScanItems(items: Items, rest: seq<Token>, s: Cursor)
    requires WellFormedItems(items) && s.depth >= 2
    ensures Scan(ItemTokens(items) + [End] + rest, s) ==
            if ItemRegs(items, s.memory) != [] then Found(Decode(ItemRegs(items, s.memory)[0], s.cells))
            else Scan(rest, Cursor(s.depth - 1, false, s.cells))
    decreases items
  {
    hide Tokens, Regs;
    match items
    case NoMore =>
      assert ItemTokens(items) + [End] + rest == [End] + rest;
      ScanFirst(End, rest, s);
    case AfterNop(more) =>
      var tail := Regrouped([Nop], more, rest);
      ScanFirst(Nop, tail, s);
      ScanItems(more, rest, s);
    case AfterProp(p, more) =>
      var tail := Regrouped([Property(p)], more, rest);
      ScanFirst(Property(p), tail, s);
      ScanItems(more, rest, s);
    case AfterChild(n, more) =>
      var tail := Regrouped(Tokens(n), more, rest);
      ScanNode(n, tail, s);
      ScanItems(more, rest, Cursor(s.depth, false, s.cells));
      SameRegs(more, s.memory);
  }

  /** Without properties of its own it does not matter whether the node is a memory node. */
  lemma {:induction false} SameRegs(items: Items, memory: bool)
    requires NoProps(items)
    ensures ItemRegs(items, memory) == ItemRegs(items, false)
  {
    match items
    case NoMore =>
    case AfterNop(rest) => SameRegs(rest, memory);
    case AfterChild(_, rest) => SameRegs(rest, memory);
  }

  lemma {:induction false} SameCells(items: Items, c: Cells)
    requires NoProps(items)
    ensures RootCells(items, c) == c
  {
    match items
    case NoMore =>
    case AfterNop(rest) => SameCells(rest, c);
    case AfterChild(_, rest) => SameCells(rest, c);
  }

  lemma {:induction false} ScanRoot(items: Items, rest: seq<Token>, c: Cells)
    requires WellFormedItems(items)
    ensures Scan(ItemTokens(items) + [End] + rest, Cursor(1, false, c)) ==
            if ItemRegs(items, false) != [] then Found(Decode(ItemRegs(items, false)[0], RootCells(items, c)))
            else Scan(rest, Cursor(0, false, RootCells(items, c)))
    decreases items
  {
    var s := Cursor(1, false, c);
    match items
    case NoMore =>
      assert ItemTokens(items) + [End] + rest == [End] + rest;
      ScanFirst(End, rest, s);
    case AfterNop(more) =>
      var tail := ItemTokens(more) + [End] + rest;
      assert ItemTokens(items) + [End] + rest == [Nop] + tail;
      ScanFirst(Nop, tail, s);
      ScanRoot(more, rest, c);
    case AfterProp(p, more) =>
      var tail := ItemTokens(more) + [End] + rest;
      assert ItemTokens(items) + [End] + rest == [Property(p)] + tail;
      ScanFirst(Property(p), tail, s);
      ScanRoot(more, rest, CellsAfter(p, c));
    case AfterChild(n, more) =>
      var tail := ItemTokens(more) + [End] + rest;
      assert ItemTokens(items) + [End] + rest == Tokens(n) + tail;
      ScanNode(n, tail, s);
      ScanRoot(more, rest, c);
      SameCells(more, c);
  }

  /** The scan of a whole flattened tree finds what the search in the tree finds. */
  lemma {:induction false} ScanIsSearch(root: Node)
    requires WellFormed(root) && root.name == []
    ensures Scan(Tokens(root) + [Fin], Cursor(0, false, Cells(2, 2))) == MemoryOf(root)
  {
    var s := Cursor(0, false, Cells(2, 2));
    assert Tokens(root) + [Fin] == [Begin(root.name)] + (ItemTokens(root.items) + [End] + [Fin]);
    ScanFirst(Begin(root.name), ItemTokens(root.items) + [End] + [Fin], s);
    ScanRoot(root.items, [Fin], Cells(2, 2));
  }
}
