/**
 What the search for memory means: which property it takes and which numbers it reads from it, said of the
 tree's nodes, names and bytes (mm/pmm.c:76-183).
 */
module MemoryNode {
  import opened Bits
  import opened DeviceTree

  function Ascii(name: string): (b: Bytes)
    ensures |b| == |name|
  {
    seq(|name|, i requires 0 <= i < |name| => name[i] as int)
  }

  /** The names the search knows. */
  lemma {:induction false} Names()
    ensures MEMORY == Ascii("memory") && REG == Ascii("reg")
    ensures ADDRESS_CELLS == Ascii("#address-cells") && SIZE_CELLS == Ascii("#size-cells")
  {}

  // ----------------------------------------------------------- numbers

  /** The number a string of bytes spells, most significant byte first. */
  function BigEndian(b: Bytes): nat
  {
    if b == [] then 0 else BigEndian(b[..|b| - 1]) * 256 + b[|b| - 1]
  }

  lemma {:induction false} OneByte(b: Bytes, p: nat, q: nat)
    requires p <= q < |b|
    ensures BigEndian(b[p..q + 1]) == BigEndian(b[p..q]) * 256 + b[q]
  {
    assert b[p..q + 1][..q - p] == b[p..q];
  }

  lemma {:induction false} OneWord(b: Bytes, p: nat, q: nat)
    requires p <= q && q + 4 <= |b|
    ensures BigEndian(b[p..q + 4]) == BigEndian(b[p..q]) * TWO32 + Be32(b, q)
  {
    hide BigEndian;
    OneByte(b, p, q);
    OneByte(b, p, q + 1);
    OneByte(b, p, q + 2);
    OneByte(b, p, q + 3);
  }

  lemma {:induction false} WordIs(b: Bytes, q: nat)
    requires q + 4 <= |b|
    ensures Be32(b, q) == BigEndian(b[q..q + 4])
  {
    OneWord(b, q, q);
  }

  lemma {:induction false} ShiftIn(x: nat, cell: nat)
    ensures (x % TWO64 * TWO32 + cell) % TWO64 == (x * TWO32 + cell) % TWO64
  {
    var k := x / TWO64 * TWO32;
    assert x == x / TWO64 * TWO64 + x % TWO64;
    assert x * TWO32 + cell == TWO64 * k + (x % TWO64 * TWO32 + cell);
  }

  /** How many of `n` cells there is room for. */
  function Whole(n: nat, room: nat): nat
  {
    if 4 * n <= room then n else room / 4
  }

  /** The cells that are there, as one number modulo 2^64. */
  lemma {:induction false} GatherIs(data: Bytes, from: nat, q: nat, n: nat)
    requires from <= q <= |data|
    ensures var e := q + 4 * Whole(n, |data| - q);
      Gather(data, q, n, BigEndian(data[from..q]) % TWO64) == Fold(BigEndian(data[from..e]) % TWO64, e)
    decreases n
  {
    hide BigEndian, Be32;
    if n > 0 && q + 4 <= |data| {
      OneWord(data, from, q);
      ShiftIn(BigEndian(data[from..q]), Be32(data, q));
      GatherIs(data, from, q + 4, n - 1);
    }
  }

  lemma {:induction false} GatherAll(data: Bytes, q: nat, n: nat)
    requires q <= |data|
    ensures var e := q + 4 * Whole(n, |data| - q); Gather(data, q, n, 0) == Fold(BigEndian(data[q..e]) % TWO64, e)
  {
    assert BigEndian(data[q..q]) == 0;
    GatherIs(data, q, q, n);
  }

  /** The base is the first `a` cells and the size the next `z`, or as many as there are, modulo 2^64; a count
      that is not positive stands for 2. */
  ghost predicate Reads(data: Bytes, a: int, z: int, r: Region)
  {
    var m := Whole(if a > 0 then a else 2, |data|);
    var n := Whole(if z > 0 then z else 2, |data| - 4 * m);
    && r.base == BigEndian(data[..4 * m]) % 0x1_0000_0000_0000_0000
    && r.size == BigEndian(data[4 * m..4 * (m + n)]) % 0x1_0000_0000_0000_0000
  }

  lemma {:induction false} DecodeReads(data: Bytes, c: Cells)
    ensures Reads(data, c.address, c.size, Decode(data, c))
  {
    hide BigEndian, Gather;
    var m := Whole(Count(c.address), |data|);
    GatherAll(data, 0, Count(c.address));
    assert data[0..4 * m] == data[..4 * m];
    GatherAll(data, 4 * m, Count(c.size));
  }

  /** A "reg" of `a` cells of the base and `z` cells of the size gives these numbers modulo 2^64. */
  lemma {:induction false} DecodesTuple(base: Bytes, size: Bytes, more: Bytes, a: int, z: int)
    requires a > 0 && z > 0 && |base| == 4 * a && |size| == 4 * z
    ensures Decode(base + size + more, Cells(a, z)) ==
            Region(BigEndian(base) % 0x1_0000_0000_0000_0000, BigEndian(size) % 0x1_0000_0000_0000_0000)
  {
    var data := base + size + more;
    DecodeReads(data, Cells(a, z));
    assert data[..4 * a] == base && data[4 * a..4 * (a + z)] == size;
  }

  // ------------------------------------------------------- cell counts

  /** A node's own properties, in order. */
  function Props(items: Items): seq<Prop>
  {
    match items
    case NoMore => []
    case AfterNop(rest) => Props(rest)
    case AfterProp(p, rest) => [p] + Props(rest)
    case AfterChild(_, rest) => Props(rest)
  }

  predicate Counts(p: Prop, name: string)
  {
    p.name == Ascii(name) && |p.data| >= 4
  }

  ghost predicate NoneCounts(ps: seq<Prop>, name: string)
  {
    forall i :: 0 <= i < |ps| ==> !Counts(ps[i], name)
  }

  ghost predicate LastCounts(ps: seq<Prop>, name: string, i: int)
  {
    0 <= i < |ps| && Counts(ps[i], name) && forall j :: i < j < |ps| ==> !Counts(ps[j], name)
  }

  /** `n` is the first word, signed, of the last property of this name with four bytes or more, or `other` if
      there is none. */
  ghost predicate CountIs(ps: seq<Prop>, name: string, other: int, n: int)
  {
    || (NoneCounts(ps, name) && n == other)
    || exists i :: LastCounts(ps, name, i) &&
                   var v := BigEndian(ps[i].data[..4]); n == if v < 0x8000_0000 then v else v - 0x1_0000_0000
  }

  lemma {:induction false} CountFirst(p: Prop, ps: seq<Prop>, name: string, other: int, next: int, n: int)
    requires CountIs(ps, name, next, n)
    requires !Counts(p, name) ==> next == other
    requires Counts(p, name) ==> next == Int32(BigEndian(p.data[..4]))
    ensures CountIs([p] + ps, name, other, n)
  {
    hide BigEndian;
    var qs := [p] + ps;
    assert qs[0] == p && forall j :: 0 < j < |qs| ==> qs[j] == ps[j - 1];
    if i :| LastCounts(ps, name, i) && n == Int32(BigEndian(ps[i].data[..4])) {
      assert LastCounts(qs, name, i + 1);
    } else if Counts(p, name) {
      assert LastCounts(qs, name, 0);
    }
  }

  /** The counts are the ones the root's own "#address-cells" and "#size-cells" give. */
  lemma {:induction false} RootCellsAre(items: Items, c: Cells)
    ensures CountIs(Props(items), "#address-cells", c.address, RootCells(items, c).address)
    ensures CountIs(Props(items), "#size-cells", c.size, RootCells(items, c).size)
  {
    match items
    case NoMore =>
    case AfterNop(rest) => RootCellsAre(rest, c);
    case AfterChild(_, rest) => RootCellsAre(rest, c);
    case AfterProp(p, rest) =>
      var d, r := CellsAfter(p, c), RootCells(items, c);
      RootCellsAre(rest, d);
      CellsAfterIs(p, c);
      CountFirst(p, Props(rest), "#address-cells", c.address, d.address, r.address);
      CountFirst(p, Props(rest), "#size-cells", c.size, d.size, r.size);
  }

  lemma {:induction false} CellsAfterIs(p: Prop, c: Cells)
    ensures var d := CellsAfter(p, c);
      && d.address == (if Counts(p, "#address-cells") then Int32(BigEndian(p.data[..4])) else c.address)
      && d.size == (if Counts(p, "#size-cells") then Int32(BigEndian(p.data[..4])) else c.size)
  {
    Names();
    if |p.data| >= 4 {
      WordIs(p.data, 0);
      assert p.data[0..4] == p.data[..4];
    }
  }

  // ---------------------------------------------------------- the node

  /** A node and all below it, parents before children. */
  function Nodes(n: Node): seq<Node>
  {
    [n] + Below(n.items)
  }

  function Below(items: Items): seq<Node>
  {
    match items
    case NoMore => []
    case AfterNop(rest) => Below(rest)
    case AfterProp(_, rest) => Below(rest)
    case AfterChild(n, rest) => Nodes(n) + Below(rest)
  }

  /** Property `k` of `n` is a "reg" and the node's name begins with "memory". */
  predicate IsReg(n: Node, k: int)
  {
    Ascii("memory") <= n.name && 0 <= k < |Props(n.items)| && Props(n.items)[k].name == Ascii("reg")
  }

  /** The first such property of the first such node has this data. */
  ghost predicate FirstReg(ns: seq<Node>, data: Bytes)
  {
    exists i, k ::
      && 0 <= i < |ns| && IsReg(ns[i], k) && Props(ns[i].items)[k].data == data
      && (forall l :: 0 <= l < k ==> !IsReg(ns[i], l))
      && forall j, l :: 0 <= j < i ==> !IsReg(ns[j], l)
  }

  /** The "reg"s among some properties. */
  function Own(ps: seq<Prop>): seq<Bytes>
  {
    if ps == [] then [] else (if ps[0].name == REG then [ps[0].data] else []) + Own(ps[1..])
  }

  function AllOwn(ns: seq<Node>): seq<Bytes>
  {
    if ns == [] then []
    else (if IsMemory(ns[0].name) then Own(Props(ns[0].items)) else []) + AllOwn(ns[1..])
  }

  lemma {:induction false} AllOwnJoin(a: seq<Node>, b: seq<Node>)
    ensures AllOwn(a + b) == AllOwn(a) + AllOwn(b)
  {
    hide IsMemory, Own, Props;
    if a == [] {
      assert a + b == b;
    } else {
      assert (a + b)[1..] == a[1..] + b;
      AllOwnJoin(a[1..], b);
    }
  }

  /** In a well-formed tree the "reg"s come node by node. */
  lemma {:induction false} RegsByNode(n: Node)
    requires WellFormed(n)
    ensures Regs(n) == AllOwn(Nodes(n))
    decreases n
  {
    ItemRegsByNode(n.items, IsMemory(n.name));
    AllOwnJoin([n], Below(n.items));
  }

  lemma {:induction false} ItemRegsByNode(items: Items, memory: bool)
    requires WellFormedItems(items)
    ensures ItemRegs(items, memory) == (if memory then Own(Props(items)) else []) + AllOwn(Below(items))
    decreases items
  {
    match items
    case NoMore =>
    case AfterNop(rest) => ItemRegsByNode(rest, memory);
    case AfterProp(p, rest) =>
      ItemRegsByNode(rest, memory);
      OwnJoin(p, Props(rest), AllOwn(Below(rest)));
    case AfterChild(n, rest) =>
      RegsByNode(n);
      ItemRegsByNode(rest, memory);
      AllOwnJoin(Nodes(n), Below(rest));
      PropsNone(rest);
  }

  lemma {:induction false} OwnJoin(p: Prop, ps: seq<Prop>, more: seq<Bytes>)
    ensures (if p.name == REG then [p.data] else []) + (Own(ps) + more) == Own([p] + ps) + more
  {
    assert ([p] + ps)[1..] == ps;
  }

  lemma {:induction false} PropsNone(items: Items)
    requires NoProps(items)
    ensures Props(items) == []
  {
    match items
    case NoMore =>
    case AfterNop(rest) => PropsNone(rest);
    case AfterChild(_, rest) => PropsNone(rest);
  }

  /** The first "reg" among properties. */
  lemma {:induction false} OwnFirst(ps: seq<Prop>) returns (k: nat)
    ensures k <= |ps| && (k == |ps| <==> Own(ps) == [])
    ensures k < |ps| ==> ps[k].name == REG && ps[k].data == Own(ps)[0]
    ensures forall l :: 0 <= l < k ==> ps[l].name != REG
  {
    if ps == [] || ps[0].name == REG {
      k := 0;
    } else {
      var d := OwnFirst(ps[1..]);
      k := d + 1;
      assert forall l :: 0 < l < |ps| ==> ps[l] == ps[1..][l - 1];
    }
  }

  lemma {:induction false} AllOwnFirst(ns: seq<Node>)
    ensures AllOwn(ns) == [] ==> forall i, k :: 0 <= i < |ns| ==> !IsReg(ns[i], k)
    ensures AllOwn(ns) != [] ==> FirstReg(ns, AllOwn(ns)[0])
  {
    Names();
    if ns != [] {
      var k := OwnFirst(Props(ns[0].items));
      AllOwnFirst(ns[1..]);
      assert forall j :: 0 < j < |ns| ==> ns[j] == ns[1..][j - 1];
      if IsReg(ns[0], k) {
        assert Props(ns[0].items)[k].data == AllOwn(ns)[0];
      } else if AllOwn(ns) != [] {
        FirstRegLater(ns, AllOwn(ns)[0]);
      }
    }
  }

  lemma {:induction false} FirstRegLater(ns: seq<Node>, data: Bytes)
    requires ns != [] && FirstReg(ns[1..], data) && forall k :: !IsReg(ns[0], k)
    ensures FirstReg(ns, data)
  {
    var i, k :|
      && 0 <= i < |ns| - 1 && IsReg(ns[1..][i], k) && Props(ns[1..][i].items)[k].data == data
      && (forall l :: 0 <= l < k ==> !IsReg(ns[1..][i], l))
      && forall j, l :: 0 <= j < i ==> !IsReg(ns[1..][j], l);
    assert forall j :: 0 < j < |ns| ==> ns[j] == ns[1..][j - 1];
    assert IsReg(ns[i + 1], k);
  }

  /** `r` is what the tree says of its memory: the first "reg" of the first memory node, read with the counts
      of the root. */
  ghost predicate Describes(root: Node, r: Region)
  {
    exists data, a, z ::
      && FirstReg(Nodes(root), data) && CountIs(Props(root.items), "#address-cells", 2, a)
      && CountIs(Props(root.items), "#size-cells", 2, z) && Reads(data, a, z, r)
  }

  /** No tree describes two regions. */
  lemma {:induction false} DescribesOne(root: Node, r: Region, r': Region)
    requires Describes(root, r) && Describes(root, r')
    ensures r == r'
  {
    hide Reads, IsReg;
    var ns, ps := Nodes(root), Props(root.items);
    var data, a, z :| FirstReg(ns, data) && CountIs(ps, "#address-cells", 2, a) && CountIs(ps, "#size-cells", 2, z)
      && Reads(data, a, z, r);
    var data', a', z' :| FirstReg(ns, data') && CountIs(ps, "#address-cells", 2, a')
      && CountIs(ps, "#size-cells", 2, z') && Reads(data', a', z', r');
    FirstRegOne(ns, data, data');
    CountOne(ps, "#address-cells", 2, a, a');
    CountOne(ps, "#size-cells", 2, z, z');
    ReadsOne(data, a, z, r, r');
  }

  lemma {:induction false} ReadsOne(data: Bytes, a: int, z: int, r: Region, r': Region)
    requires Reads(data, a, z, r) && Reads(data, a, z, r')
    ensures r == r'
  {}

  lemma {:induction false} CountOne(ps: seq<Prop>, name: string, other: int, n: int, n': int)
    requires CountIs(ps, name, other, n) && CountIs(ps, name, other, n')
    ensures n == n'
  {
    hide Counts;
  }

  lemma {:induction false} FirstRegOne(ns: seq<Node>, data: Bytes, data': Bytes)
    requires FirstReg(ns, data) && FirstReg(ns, data')
    ensures data == data'
  {
    var i, k :|
      && 0 <= i < |ns| && IsReg(ns[i], k) && Props(ns[i].items)[k].data == data
      && (forall l :: 0 <= l < k ==> !IsReg(ns[i], l)) && forall j, l :: 0 <= j < i ==> !IsReg(ns[j], l);
    var i', k' :|
      && 0 <= i' < |ns| && IsReg(ns[i'], k') && Props(ns[i'].items)[k'].data == data'
      && (forall l :: 0 <= l < k' ==> !IsReg(ns[i'], l)) && forall j, l :: 0 <= j < i' ==> !IsReg(ns[j], l);
    assert i == i' && k == k';
  }

  /** The search finds a region exactly if some node whose name begins with "memory" has a "reg", and it is
      the one the tree describes. */
  lemma {:induction false} MemoryIsDescribed(root: Node)
    requires WellFormed(root)
    ensures MemoryOf(root).Found? <==> exists i, k :: 0 <= i < |Nodes(root)| && IsReg(Nodes(root)[i], k)
    ensures MemoryOf(root).Found? ==> Describes(root, MemoryOf(root).region)
  {
    RegsByNode(root);
    AllOwnFirst(Nodes(root));
    if Regs(root) != [] {
      var data, c := Regs(root)[0], RootCells(root.items, Cells(2, 2));
      DecodeReads(data, c);
      RootCellsAre(root.items, Cells(2, 2));
      assert FirstReg(Nodes(root), data) && Reads(data, c.address, c.size, Decode(data, c));
    }
  }
}
