/**
 Four-level page tables of mm/mmu.c in physical memory, as values.

 Memory is a sequence of 64-bit words; the word at physical address `a` is `m[a / 8]`.
 A table is named by the path of indices that leads to it, so that "the tables form a tree"
 is a map from names to addresses that is injective and closed.
 */
module PageTables {
  import opened Bits

  const ENTRIES: nat := 512

  const PTE_VALID: nat := 1
  const PTE_TABLE: nat := 2
  const PTE_AF: nat := 1024

  type Index = i: nat | i < ENTRIES

  /** Index of `va` at level 0, 1, 2 and 3 (mm/mmu.c:29-32). */
  function PgdIndex(va: nat): Index { (va / 0x80_0000_0000) % ENTRIES }
  function PudIndex(va: nat): Index { (va / 0x4000_0000) % ENTRIES }
  function PmdIndex(va: nat): Index { (va / 0x20_0000) % ENTRIES }
  function PteIndex(va: nat): Index { (va / 0x1000) % ENTRIES }

  /** A place a walk can end at: the top-level table and one index per level. */
  datatype Spot = Spot(root: nat, i0: Index, i1: Index, i2: Index, i3: Index)

  function SpotOf(root: nat, va: nat): Spot
  {
    Spot(root, PgdIndex(va), PudIndex(va), PmdIndex(va), PteIndex(va))
  }

  /** The 48-bit page a virtual address lies in. */
  function Page48(va: nat): nat
  {
    (va / PAGE) % 0x10_0000_0000
  }

  /** The four indices together are the page number: no two pages share them. */
  lemma {:induction false} IndicesArePage(va: nat)
    ensures Page48(va) == PgdIndex(va) * 0x800_0000 + PudIndex(va) * 0x4_0000 + PmdIndex(va) * 512 + PteIndex(va)
  {
    var p := va / 0x1000;
    DivTwice(va, 0x1000, 512);
    DivTwice(va, 0x20_0000, 512);
    DivTwice(va, 0x4000_0000, 512);
    Digits(p);
  }

  lemma {:induction false} Digits(p: nat)
    ensures p % 0x10_0000_0000
         == p / 512 / 512 / 512 % 512 * 0x800_0000 + p / 512 / 512 % 512 * 0x4_0000 + p / 512 % 512 * 512 + p % 512
  {
    var a := p / 512;
    var b := a / 512;
    var c := b / 512;
    var low := (c % 512) * 0x800_0000 + (b % 512) * 0x4_0000 + (a % 512) * 512 + p % 512;
    assert p == 512 * a + p % 512 && a == 512 * b + a % 512 && b == 512 * c + b % 512 && c == 512 * (c / 512) + c % 512;
    DivUnique(p, 0x10_0000_0000, c / 512, low);
  }

  /** Two addresses end at the same place exactly when they lie in the same 48-bit page. */
  lemma {:induction false} SameSpot(root: nat, va: nat, root': nat, va': nat)
    ensures SpotOf(root, va) == SpotOf(root', va') <==> root == root' && Page48(va) == Page48(va')
  {
    IndicesArePage(va);
    IndicesArePage(va');
    var s, s' := SpotOf(root, va), SpotOf(root', va');
    if Page48(va) == Page48(va') {
      DigitsUnique(s.i0, s.i1, s.i2, s.i3, s'.i0, s'.i1, s'.i2, s'.i3);
    }
  }

  lemma {:induction false} DigitsUnique(a: nat, b: nat, c: nat, d: nat, a': nat, b': nat, c': nat, d': nat)
    requires b < 512 && c < 512 && d < 512 && b' < 512 && c' < 512 && d' < 512
    requires a * 0x800_0000 + b * 0x4_0000 + c * 512 + d == a' * 0x800_0000 + b' * 0x4_0000 + c' * 512 + d'
    ensures a == a' && b == b' && c == c' && d == d'
  {
    QuotientUnique(0x800_0000, a, b * 0x4_0000 + c * 512 + d, a', b' * 0x4_0000 + c' * 512 + d');
    QuotientUnique(0x4_0000, b, c * 512 + d, b', c' * 512 + d');
    QuotientUnique(512, c, d, c', d');
  }

  // ------------------------------------------------------------- memory

  type Memory = seq<nat>

  /** Frame `f` (the page at physical address `f * PAGE`) lies in memory. */
  predicate InMemory(m: Memory, f: nat)
  {
    (f + 1) * ENTRIES <= |m|
  }

  /** Word `i` of frame `f`. */
  function Entry(m: Memory, f: nat, i: nat): nat
    requires InMemory(m, f) && i < ENTRIES
  {
    m[f * ENTRIES + i]
  }

  function WithEntry(m: Memory, f: nat, i: nat, e: nat): (m': Memory)
    requires InMemory(m, f) && i < ENTRIES
    ensures |m'| == |m|
  {
    m[f * ENTRIES + i := e]
  }

  function Zeroed(m: Memory, f: nat): (m': Memory)
    requires InMemory(m, f)
    ensures |m'| == |m|
  {
    m[..f * ENTRIES] + seq(ENTRIES, _ => 0) + m[(f + 1) * ENTRIES..]
  }

  /** The frame an entry points at: `e & ~0xFFF`, as a frame number. */
  function FrameOf(e: nat): nat
  {
    e / PAGE
  }

  predicate IsValid(e: nat)
  {
    e % 2 == 1
  }

  predicate IsTable(e: nat)
  {
    e % 4 == 3
  }

  lemma {:induction false} EntryAfterWrite(m: Memory, f: nat, i: nat, e: nat, f': nat, i': nat)
    requires InMemory(m, f) && i < ENTRIES && InMemory(m, f') && i' < ENTRIES
    ensures Entry(WithEntry(m, f, i, e), f', i') == if f' == f && i' == i then e else Entry(m, f', i')
  {}

  lemma {:induction false} EntryAfterZero(m: Memory, f: nat, f': nat, i': nat)
    requires InMemory(m, f) && InMemory(m, f') && i' < ENTRIES
    ensures Entry(Zeroed(m, f), f', i') == if f' == f then 0 else Entry(m, f', i')
  {}

  /** A table descriptor: `table | PTE_TABLE | PTE_VALID`. */
  function TableEntry(f: nat): nat
  {
    Or(Or(f * PAGE, PTE_TABLE), PTE_VALID)
  }

  lemma {:induction false} OrOne(t: nat)
    requires t % 2 == 0
    ensures Or(t, 1) == t + 1
  {
    OrHalves(t, 1);
    assert Or(t / 2, 0) == t / 2;
  }

  lemma {:induction false} OrTwo(t: nat)
    requires t % 4 == 0
    ensures Or(t, 2) == t + 2
  {
    hide Or;
    OrHalves(t, 2);
    OrOne(t / 2);
  }

  lemma {:induction false} TableEntryDecodes(f: nat)
    ensures TableEntry(f) == f * PAGE + 3
    ensures IsValid(TableEntry(f)) && IsTable(TableEntry(f)) && FrameOf(TableEntry(f)) == f
  {
    hide Or;
    var t := 4096 * f;
    DivUnique(t, 4, 1024 * f, 0);
    OrTwo(t);
    DivUnique(t + 2, 2, 2048 * f + 1, 0);
    OrOne(t + 2);
    DivUnique(t + 3, 2, 2048 * f + 1, 1);
    DivUnique(t + 3, 4, 1024 * f, 3);
    DivUnique(t + 3, 4096, f, 3);
  }

  // -------------------------------------------------------------- names

  /** The table in frame `root`, or the table that entry `i` of another table leads to. */
  datatype Name = Pgd(root: nat) | Sub(of: Name, i: nat)

  function Level(k: Name): nat
  {
    if k.Pgd? then 0 else 1 + Level(k.of)
  }

  type Tables = map<Name, nat>

  ghost predicate Placed(m: Memory, tabs: Tables)
  {
    && (forall k :: k in tabs ==> InMemory(m, tabs[k]) && Level(k) <= 3)
    && (forall k :: k in tabs && k.Pgd? ==> tabs[k] == k.root)
    && (forall k, k' :: k in tabs && k' in tabs && k != k' ==> tabs[k] != tabs[k'])
    && (forall k, i: nat :: Sub(k, i) in tabs ==> k in tabs && i < ENTRIES)
  }

  /** An entry is valid exactly when it leads to a table, and then it is a table descriptor. */
  ghost predicate Leads(m: Memory, tabs: Tables, k: Name, i: nat)
    requires k in tabs && InMemory(m, tabs[k]) && i < ENTRIES
  {
    var e := Entry(m, tabs[k], i);
    (IsValid(e) <==> Sub(k, i) in tabs) && (IsValid(e) ==> IsTable(e) && FrameOf(e) == tabs[Sub(k, i)])
  }

  /** The tables form a tree: distinct places, and every entry above level 3 leads to a table or is invalid. */
  ghost predicate TableTree(m: Memory, tabs: Tables)
  {
    && Placed(m, tabs)
    && forall k, i :: k in tabs && Level(k) < 3 && 0 <= i < ENTRIES ==> Leads(m, tabs, k, i)
  }

  /** The level-3 table of a place. */
  function LeafName(p: Spot): Name
  {
    Sub(Sub(Sub(Pgd(p.root), p.i0), p.i1), p.i2)
  }

  lemma {:induction false} LeafLevel(p: Spot)
    ensures Level(LeafName(p)) == 3
  {
    assert Level(Pgd(p.root)) == 0;
    assert Level(Sub(Pgd(p.root), p.i0)) == 1;
    assert Level(Sub(Sub(Pgd(p.root), p.i0), p.i1)) == 2;
  }

  /** Entry `i` of the level-3 table `k`; 0 when there is no such table. */
  ghost function Leaf(m: Memory, tabs: Tables, k: Name, i: nat): nat
    requires Placed(m, tabs) && i < ENTRIES
  {
    if k in tabs then Entry(m, tabs[k], i) else 0
  }

  // --------------------------------------------------------------- walk

  /** One level: the table an entry leads to, if the entry is valid and points into memory. */
  function Descend(m: Memory, t: nat, i: nat): (r: int)
    requires i < ENTRIES
    ensures r >= -1
  {
    if !InMemory(m, t) then -1
    else if !IsValid(Entry(m, t, i)) then -1
    else FrameOf(Entry(m, t, i))
  }

  /** The level-3 entry at a place, read from memory alone; 0 if the walk faults before it. */
  function Walk(m: Memory, p: Spot): nat
  {
    var t1 := Descend(m, p.root, p.i0);
    if t1 < 0 then 0 else
    var t2 := Descend(m, t1, p.i1);
    if t2 < 0 then 0 else
    var t3 := Descend(m, t2, p.i2);
    if t3 < 0 || !InMemory(m, t3) then 0 else Entry(m, t3, p.i3)
  }

  lemma {:induction false} DescendIsName(m: Memory, tabs: Tables, k: Name, i: nat)
    requires TableTree(m, tabs) && k in tabs && Level(k) < 3 && i < ENTRIES
    ensures Descend(m, tabs[k], i) == if Sub(k, i) in tabs then tabs[Sub(k, i)] else -1
  {
    assert Leads(m, tabs, k, i);
  }

  /** In a tree of tables, walking memory is looking up a name. */
  lemma {:induction false} WalkIsLeaf(m: Memory, tabs: Tables, p: Spot)
    requires TableTree(m, tabs) && Pgd(p.root) in tabs
    ensures Walk(m, p) == Leaf(m, tabs, LeafName(p), p.i3)
  {
    var k0 := Pgd(p.root);
    var k1 := Sub(k0, p.i0);
    var k2 := Sub(k1, p.i1);
    assert Level(k0) == 0 && Level(k1) == 1 && Level(k2) == 2;
    DescendIsName(m, tabs, k0, p.i0);
    if k1 in tabs {
      DescendIsName(m, tabs, k1, p.i1);
      if k2 in tabs { DescendIsName(m, tabs, k2, p.i2); }
    }
  }

  /** The table that entry `i` of the 4096 bytes at frame `t` points at, if the entry is a table descriptor. */
  ghost predicate PointsAt(m: Memory, t: nat, i: nat, t': nat)
  {
    (t + 1) * 512 <= |m| && i < 512 && m[t * 512 + i] % 4 == 3 && t' == m[t * 512 + i] / 4096
  }

  /** `e` is what the processor finds for `va`: bits 47 to 39, 38 to 30 and 29 to 21 of the address select table
      descriptors from the top-level table on, and bits 20 to 12 the page descriptor. */
  ghost predicate Translates(m: Memory, root: nat, va: nat, e: nat)
  {
    exists t1: nat, t2: nat, t3: nat ::
      && PointsAt(m, root, va / 0x80_0000_0000 % 512, t1) && PointsAt(m, t1, va / 0x4000_0000 % 512, t2)
      && PointsAt(m, t2, va / 0x20_0000 % 512, t3) && (t3 + 1) * 512 <= |m| && e == m[t3 * 512 + va / 0x1000 % 512]
  }

  /** In a tree of tables, a walk that does not fault is the processor's translation. */
  lemma {:induction false} WalkTranslates(m: Memory, tabs: Tables, root: nat, va: nat)
    requires TableTree(m, tabs) && Pgd(root) in tabs
    ensures var e := Walk(m, SpotOf(root, va)); e != 0 ==> Translates(m, root, va, e)
  {
    var p := SpotOf(root, va);
    if Walk(m, p) != 0 {
      var k0 := Pgd(root);
      var k1 := Sub(k0, p.i0);
      var k2 := Sub(k1, p.i1);
      assert Level(k0) == 0 && Level(k1) == 1 && Level(k2) == 2;
      assert Leads(m, tabs, k0, p.i0) && Leads(m, tabs, k1, p.i1) && Leads(m, tabs, k2, p.i2);
      var t1, t2, t3 := tabs[k1], tabs[k2], tabs[Sub(k2, p.i2)];
      assert PointsAt(m, root, p.i0, t1) && PointsAt(m, t1, p.i1, t2) && PointsAt(m, t2, p.i2, t3);
    }
  }

  // ------------------------------------------------------ growing the tree

  ghost predicate SameLeaves(m: Memory, tabs: Tables, m': Memory, tabs': Tables)
    requires Placed(m, tabs) && Placed(m', tabs')
  {
    forall k, i :: Level(k) == 3 && 0 <= i < ENTRIES ==> Leaf(m', tabs', k, i) == Leaf(m, tabs, k, i)
  }

  /** Zeroing a page that holds no table changes nothing. */
  lemma {:induction false} ZeroElsewhere(m: Memory, tabs: Tables, t: nat)
    requires TableTree(m, tabs) && InMemory(m, t) && forall n :: n in tabs ==> tabs[n] != t
    ensures TableTree(Zeroed(m, t), tabs)
    ensures SameLeaves(m, tabs, Zeroed(m, t), tabs)
  {
    forall n, j | n in tabs && 0 <= j < ENTRIES
      ensures Entry(Zeroed(m, t), tabs[n], j) == Entry(m, tabs[n], j)
    {
      EntryAfterZero(m, t, tabs[n], j);
    }
    forall n, j | n in tabs && Level(n) < 3 && 0 <= j < ENTRIES
      ensures Leads(Zeroed(m, t), tabs, n, j)
    {
      assert Leads(m, tabs, n, j);
    }
  }

  /** A zeroed page is a table of its own: an empty top-level table. */
  lemma {:induction false} AddRoot(m: Memory, tabs: Tables, t: nat)
    requires TableTree(m, tabs) && InMemory(m, t) && forall n :: n in tabs ==> tabs[n] != t
    requires forall j :: 0 <= j < ENTRIES ==> Entry(m, t, j) == 0
    ensures TableTree(m, tabs[Pgd(t) := t])
    ensures SameLeaves(m, tabs, m, tabs[Pgd(t) := t])
  {
    var tabs' := tabs[Pgd(t) := t];
    assert Pgd(t) !in tabs;
    forall n, j | n in tabs' && Level(n) < 3 && 0 <= j < ENTRIES
      ensures Leads(m, tabs', n, j)
    {
      if n == Pgd(t) { assert Sub(n, j) !in tabs; } else { assert Leads(m, tabs, n, j); }
    }
  }

  /** Hanging a zeroed table at an invalid entry keeps the tree and every translation. */
  lemma {:induction false} AddTable(m: Memory, tabs: Tables, k: Name, i: nat, t: nat, m': Memory)
    requires TableTree(m, tabs) && k in tabs && Level(k) < 3 && i < ENTRIES && Sub(k, i) !in tabs
    requires InMemory(m, t) && forall n :: n in tabs ==> tabs[n] != t
    requires m' == WithEntry(Zeroed(m, t), tabs[k], i, TableEntry(t))
    ensures TableTree(m', tabs[Sub(k, i) := t])
    ensures SameLeaves(m, tabs, m', tabs[Sub(k, i) := t])
  {
    var k' := Sub(k, i);
    var tabs' := tabs[k' := t];
    TableEntryDecodes(t);
    forall n, j | n in tabs && 0 <= j < ENTRIES
      ensures Entry(m', tabs[n], j) == if n == k && j == i then TableEntry(t) else Entry(m, tabs[n], j)
    {
      EntryAfterZero(m, t, tabs[n], j);
      EntryAfterWrite(Zeroed(m, t), tabs[k], i, TableEntry(t), tabs[n], j);
    }
    forall j | 0 <= j < ENTRIES ensures Entry(m', t, j) == 0 {
      EntryAfterZero(m, t, t, j);
      EntryAfterWrite(Zeroed(m, t), tabs[k], i, TableEntry(t), t, j);
    }
    assert Placed(m', tabs');
    forall n, j | n in tabs' && Level(n) < 3 && 0 <= j < ENTRIES
      ensures Leads(m', tabs', n, j)
    {
      if n == k' { assert Sub(n, j) !in tabs; } else { assert Leads(m, tabs, n, j); }
    }
  }

  /** Writing a level-3 entry keeps the tree and changes that one translation. */
  lemma {:induction false} WriteLeaf(m: Memory, tabs: Tables, k: Name, i: nat, e: nat)
    requires TableTree(m, tabs) && k in tabs && Level(k) == 3 && i < ENTRIES
    ensures TableTree(WithEntry(m, tabs[k], i, e), tabs)
    ensures forall n, j :: Level(n) == 3 && 0 <= j < ENTRIES ==>
              Leaf(WithEntry(m, tabs[k], i, e), tabs, n, j) == if n == k && j == i then e else Leaf(m, tabs, n, j)
  {
    var m' := WithEntry(m, tabs[k], i, e);
    forall n, j | n in tabs && 0 <= j < ENTRIES
      ensures Entry(m', tabs[n], j) == if n == k && j == i then e else Entry(m, tabs[n], j)
    {
      EntryAfterWrite(m, tabs[k], i, e, tabs[n], j);
    }
    forall n, j | n in tabs && Level(n) < 3 && 0 <= j < ENTRIES
      ensures Leads(m', tabs, n, j)
    {
      assert Leads(m, tabs, n, j);
    }
  }

  /** One translation set to `e` (if `hit`), all others as before. */
  ghost predicate WalksChanged(m: Memory, tabs: Tables, m': Memory, p: Spot, hit: bool, e: nat)
  {
    forall q: Spot :: Pgd(q.root) in tabs ==> Walk(m', q) == if hit && q == p then e else Walk(m, q)
  }

  /** Changing at most one leaf entry changes at most the walk that ends there. */
  lemma {:induction false} LeavesToWalks(m: Memory, tabs: Tables, m': Memory, tabs': Tables, p: Spot, hit: bool, e: nat)
    requires TableTree(m, tabs) && TableTree(m', tabs')
    requires forall r :: Pgd(r) in tabs ==> Pgd(r) in tabs'
    requires forall n, j :: Level(n) == 3 && 0 <= j < ENTRIES ==>
               Leaf(m', tabs', n, j) == if hit && n == LeafName(p) && j == p.i3 then e else Leaf(m, tabs, n, j)
    ensures WalksChanged(m, tabs, m', p, hit, e)
  {
    forall q: Spot | Pgd(q.root) in tabs
      ensures Walk(m', q) == if hit && q == p then e else Walk(m, q)
    {
      WalkIsLeaf(m, tabs, q);
      WalkIsLeaf(m', tabs', q);
      LeafLevel(q);
    }
  }
}
