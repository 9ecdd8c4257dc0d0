/**
 The page-table writer of mm/mmu.c, in place in physical memory, with table pages taken from
 the physical memory manager.
 */
module MmuClass {
  import opened Bits
  import opened PageMap
  import opened PageTables
  import opened Descriptors
  import opened PmmClass

  /** Frame `f` is a managed page that is taken; frame `base` is the first managed one. */
  ghost predicate FrameTaken(base: nat, m: Pages, f: nat)
  {
    base <= f < base + |m| && m[f - base]
  }

  /** Exactly frame `f` went from free to taken. */
  ghost predicate FrameTakes(base: nat, m: Pages, m': Pages, f: nat)
  {
    base <= f < base + |m| && !m[f - base] && m' == m[f - base := true]
  }

  /** Pages are only ever taken, and only for tables. */
  ghost predicate OnlyTables(base: nat, m: Pages, m': Pages, tabs: Tables)
  {
    && |m'| == |m|
    && (forall i :: 0 <= i < |m| && m[i] ==> m'[i])
    && (forall i :: 0 <= i < |m| && m'[i] && !m[i] ==> base + i in tabs.Values)
  }

  /** How many tables the path to a place lacks. */
  function Missing(tabs: Tables, p: Spot): nat
  {
    var k1 := Sub(Pgd(p.root), p.i0);
    var k2 := Sub(k1, p.i1);
    var k3 := Sub(k2, p.i2);
    if k1 !in tabs then 3 else if k2 !in tabs then 2 else if k3 !in tabs then 1 else 0
  }

  /** The tables on the way to a place, below the top level. */
  function Path(p: Spot): set<Name>
  {
    var k1 := Sub(Pgd(p.root), p.i0);
    var k2 := Sub(k1, p.i1);
    {k1, k2, Sub(k2, p.i2)}
  }

  /** Exactly the tables on the way to a place were added. */
  ghost predicate PathAdded(tabs: Tables, tabs': Tables, p: Spot)
  {
    forall k :: k in tabs' <==> k in tabs || k in Path(p)
  }

  /** What is missing is what the path has and the tables have not. */
  lemma {:induction false} MissingIsCount(m: Memory, tabs: Tables, p: Spot)
    requires TableTree(m, tabs)
    ensures Missing(tabs, p) == |Path(p) - tabs.Keys|
  {
    var k1 := Sub(Pgd(p.root), p.i0);
    var k2 := Sub(k1, p.i1);
    TablesClosed(m, tabs, k1, p.i1);
    TablesClosed(m, tabs, k2, p.i2);
    CountAbsent(tabs.Keys, k1, k2, Sub(k2, p.i2));
  }

  lemma {:induction false} CountAbsent(ks: set<Name>, a: Name, b: Name, c: Name)
    requires a != b && b != c && a != c && (a !in ks ==> b !in ks) && (b !in ks ==> c !in ks)
    ensures |{a, b, c} - ks| == if a !in ks then 3 else if b !in ks then 2 else if c !in ks then 1 else 0
  {
    assert {a, b, c} - ks == if a !in ks then {a, b, c} else if b !in ks then {b, c} else if c !in ks then {c} else {};
  }

  /** Table `k` is there, made from one free page if it was not before. */
  ghost predicate Hung(tabs: Tables, free: nat, tabs': Tables, free': nat, k: Name)
  {
    && k in tabs' && (k in tabs ==> tabs' == tabs && free' == free)
    && (k !in tabs ==> free' == free - 1 && tabs' == tabs[k := tabs'[k]])
  }

  /** The three levels together. */
  lemma {:induction false} PathHung(m: Memory, t0: Tables, f0: nat, t1: Tables, f1: nat, t2: Tables, f2: nat,
                                    t3: Tables, f3: nat, p: Spot)
    requires var k1 := Sub(Pgd(p.root), p.i0);
      var k2 := Sub(k1, p.i1);
      Hung(t0, f0, t1, f1, k1) && Hung(t1, f1, t2, f2, k2) && Hung(t2, f2, t3, f3, Sub(k2, p.i2))
    requires TableTree(m, t0)
    ensures f3 == f0 - Missing(t0, p) && PathAdded(t0, t3, p)
  {
    var k1 := Sub(Pgd(p.root), p.i0);
    var k2 := Sub(k1, p.i1);
    TablesClosed(m, t0, k1, p.i1);
    TablesClosed(m, t0, k2, p.i2);
  }

  /** A place that is translated has all its tables. */
  lemma {:induction false} TranslatedHasPath(m: Memory, tabs: Tables, p: Spot)
    requires TableTree(m, tabs) && Pgd(p.root) in tabs && IsValid(Walk(m, p))
    ensures Missing(tabs, p) == 0
  {
    var k1 := Sub(Pgd(p.root), p.i0);
    var k2 := Sub(k1, p.i1);
    TablesClosed(m, tabs, k1, p.i1);
    TablesClosed(m, tabs, k2, p.i2);
    WalkIsLeaf(m, tabs, p);
  }

  /** The tables form a tree in memory and each sits in a frame of its own that is taken. */
  ghost predicate Housed(m: Memory, tabs: Tables, base: nat, pages: Pages)
  {
    TableTree(m, tabs) && forall k :: k in tabs ==> tabs[k] != 0 && FrameTaken(base, pages, tabs[k])
  }

  ghost predicate SameRoots(tabs: Tables, tabs': Tables)
  {
    forall r :: Pgd(r) in tabs <==> Pgd(r) in tabs'
  }

  /** The tables there were are where they were; new ones sit on pages that were free. */
  ghost predicate TablesGrew(base: nat, pages: Pages, tabs: Tables, pages': Pages, tabs': Tables)
  {
    && OnlyTables(base, pages, pages', tabs') && SameRoots(tabs, tabs')
    && (forall k :: k in tabs ==> k in tabs' && tabs'[k] == tabs[k])
    && (forall k :: k in tabs' && k !in tabs ==> !FrameTaken(base, pages, tabs'[k]))
  }

  lemma {:induction false} TablesGrewTrans(base: nat, pages: Pages, tabs: Tables, pages': Pages, tabs': Tables,
                                           pages'': Pages, tabs'': Tables)
    requires TablesGrew(base, pages, tabs, pages', tabs') && TablesGrew(base, pages', tabs', pages'', tabs'')
    ensures TablesGrew(base, pages, tabs, pages'', tabs'')
  {
    OnlyTablesTrans(base, pages, pages', tabs', pages'', tabs'');
  }

  /** Tables were added below existing ones, on pages that were free; every translation is as before. */
  ghost predicate Grown(base: nat, m: Memory, tabs: Tables, pages: Pages, m': Memory, tabs': Tables, pages': Pages)
    requires Placed(m, tabs) && Placed(m', tabs')
  {
    && SameLeaves(m, tabs, m', tabs')
    && OnlyTables(base, pages, pages', tabs')
    && (forall k :: k in tabs ==> k in tabs' && tabs'[k] == tabs[k])
    && (forall k :: k in tabs' && k !in tabs ==> k.Sub? && !FrameTaken(base, pages, tabs'[k]))
  }

  lemma {:induction false} GrownTrans(base: nat, m: Memory, tabs: Tables, pages: Pages, m': Memory, tabs': Tables,
                                      pages': Pages, m'': Memory, tabs'': Tables, pages'': Pages)
    requires Placed(m, tabs) && Placed(m', tabs') && Placed(m'', tabs'')
    requires Grown(base, m, tabs, pages, m', tabs', pages') && Grown(base, m', tabs', pages', m'', tabs'', pages'')
    ensures Grown(base, m, tabs, pages, m'', tabs'', pages'')
  {
    forall k, i | Level(k) == 3 && 0 <= i < ENTRIES ensures Leaf(m'', tabs'', k, i) == Leaf(m, tabs, k, i) {
      assert Leaf(m', tabs', k, i) == Leaf(m, tabs, k, i);
    }
    OnlyTablesTrans(base, pages, pages', tabs', pages'', tabs'');
    forall k | k in tabs'' && k !in tabs ensures k.Sub? && !FrameTaken(base, pages, tabs''[k]) {
      assert k in tabs' ==> tabs''[k] == tabs'[k];
    }
  }

  lemma {:induction false} OnlyTablesTrans(base: nat, pages: Pages, pages': Pages, tabs': Tables, pages'': Pages,
                                           tabs'': Tables)
    requires OnlyTables(base, pages, pages', tabs') && OnlyTables(base, pages', pages'', tabs'')
    requires forall k :: k in tabs' ==> k in tabs'' && tabs''[k] == tabs'[k]
    ensures OnlyTables(base, pages, pages'', tabs'')
  {
    forall f | f in tabs'.Values ensures f in tabs''.Values {
      var k :| k in tabs' && tabs'[k] == f;
      assert k in tabs'' && tabs''[k] == f;
    }
  }

  /** A page just taken holds no table yet. */
  lemma {:induction false} TakenIsNew(m: Memory, tabs: Tables, base: nat, pages: Pages, pages': Pages, t: nat)
    requires Housed(m, tabs, base, pages) && FrameTakes(base, pages, pages', t)
    ensures forall n :: n in tabs ==> tabs[n] != t
    ensures Housed(m, tabs, base, pages')
  {}

  lemma {:induction false} HouseTable(m: Memory, tabs: Tables, base: nat, pages: Pages, pages': Pages, k: Name, i: nat,
                                      t: nat)
    requires Housed(m, tabs, base, pages) && k in tabs && Level(k) < 3 && i < ENTRIES && Sub(k, i) !in tabs
    requires FrameTakes(base, pages, pages', t) && InMemory(m, t) && t != 0
    ensures var m', tabs' := WithEntry(Zeroed(m, t), tabs[k], i, TableEntry(t)), tabs[Sub(k, i) := t];
      Housed(m', tabs', base, pages') && Grown(base, m, tabs, pages, m', tabs', pages')
  {
    TakenIsNew(m, tabs, base, pages, pages', t);
    AddTable(m, tabs, k, i, t, WithEntry(Zeroed(m, t), tabs[k], i, TableEntry(t)));
    NewFrame(base, pages, pages', tabs, Sub(k, i), t);
  }

  lemma {:induction false} HouseRoot(m: Memory, tabs: Tables, base: nat, pages: Pages, pages': Pages, t: nat)
    requires Housed(m, tabs, base, pages)
    requires FrameTakes(base, pages, pages', t) && InMemory(m, t) && t != 0
    ensures var m', tabs' := Zeroed(m, t), tabs[Pgd(t) := t];
      Housed(m', tabs', base, pages') && SameLeaves(m, tabs, m', tabs') && OnlyTables(base, pages, pages', tabs')
  {
    TakenIsNew(m, tabs, base, pages, pages', t);
    ZeroElsewhere(m, tabs, t);
    forall j | 0 <= j < ENTRIES ensures Entry(Zeroed(m, t), t, j) == 0 { EntryAfterZero(m, t, t, j); }
    AddRoot(Zeroed(m, t), tabs, t);
    NewFrame(base, pages, pages', tabs, Pgd(t), t);
  }

  class Mmu {
    const mem: array<nat>
    const pmm: Pmm
    ghost var tabs: Tables

    /** The first managed frame. */
    ghost function Base(): nat
      reads pmm
    {
      pmm.base / PAGE
    }

    ghost predicate Valid()
      reads this, mem, pmm, pmm.bitmap
    {
      && pmm.Valid() && mem != pmm.bitmap
      && (Base() + pmm.total) * ENTRIES <= mem.Length
      && Housed(mem[..], tabs, Base(), pmm.Map())
    }

    constructor (words: array<nat>, p: Pmm)
      requires p.Valid() && words != p.bitmap && (p.base / PAGE + p.total) * ENTRIES <= words.Length
      ensures Valid() && mem == words && pmm == p && tabs == map[]
    {
      mem, pmm, tabs := words, p, map[];
    }

    /** mm/mmu.c:22-27. The result is a frame number, 0 for NULL. */
    method AllocTable() returns (f: nat)
      requires Valid()
      modifies mem, pmm`free, pmm.bitmap
      ensures pmm.Valid()
      ensures f == 0 <==> old(pmm.free) == 0
      ensures f == 0 ==> mem[..] == old(mem[..]) && pmm.Map() == old(pmm.Map()) && pmm.free == old(pmm.free)
      ensures f != 0 ==> InMemory(old(mem[..]), f) && mem[..] == Zeroed(old(mem[..]), f)
      ensures f != 0 ==> FrameTakes(Base(), old(pmm.Map()), pmm.Map(), f) && pmm.free == old(pmm.free) - 1
    {
      hide Pmm.Map, TableTree, Housed;
      var t := pmm.AllocPage();
      f := t / PAGE;
      if t != 0 {
        AddressToFrame(pmm.base, t);
        Clear(f);
      }
    }

    /** A page for a caller, who is given its address (mm/pmm.c:411). */
    method TakePage() returns (pa: nat)
      requires Valid()
      modifies pmm`free, pmm.bitmap
      ensures Valid()
      ensures pa == 0 ==> pmm.Map() == old(pmm.Map())
      ensures pa != 0 ==> pa % PAGE == 0 && pa < TWO64 && FrameTakes(Base(), old(pmm.Map()), pmm.Map(), pa / PAGE)
    {
      hide Pmm.Map;
      pa := pmm.AllocPage();
      if pa != 0 {
        AddressToFrame(pmm.base, pa);
        TakenIsNew(mem[..], tabs, Base(), old(pmm.Map()), pmm.Map(), pa / PAGE);
        PageBelow(pmm.base, pmm.size, pmm.total, pa);
      }
    }

    /** And back again; the page must not hold a table (mm/pmm.c:445). */
    method GivePage(pa: nat)
      requires Valid() && pa != 0 && pa % PAGE == 0 && FrameTaken(Base(), pmm.Map(), pa / PAGE)
      requires pa / PAGE !in tabs.Values
      modifies pmm`free, pmm.bitmap
      ensures Valid() && pmm.Map() == old(pmm.Map())[pa / PAGE - Base() := false]
    {
      ghost var f, b, m := pa / PAGE, Base(), pmm.Map();
      FrameToAddress(pmm.base, pmm.size, pmm.total, pa);
      OneCleared(m, f - b);
      GivenHoused(mem[..], tabs, b, m, f);
      pmm.FreePages(pa, 1);
      assert pmm.Map() == m[f - b := false];
    }

    /** `memset(p, 0, MMU_PAGE_SIZE)` */
    method Clear(f: nat)
      requires InMemory(mem[..], f)
      modifies mem
      ensures mem[..] == Zeroed(old(mem[..]), f)
    {
      ghost var m := mem[..];
      var i := 0;
      while i < ENTRIES
        invariant 0 <= i <= ENTRIES
        invariant mem[..] == m[..f * ENTRIES] + seq(i, _ => 0) + m[f * ENTRIES + i..]
      {
        mem[f * ENTRIES + i] := 0;
        assert mem[..] == m[..f * ENTRIES] + (seq(i, _ => 0) + [0]) + m[f * ENTRIES + i + 1..];
        assert seq(i, _ => 0) + [0] == seq(i + 1, _ => 0);
        i := i + 1;
      }
    }

    method SetEntry(f: nat, idx: nat, e: nat)
      requires InMemory(mem[..], f) && idx < ENTRIES
      modifies mem
      ensures mem[..] == WithEntry(old(mem[..]), f, idx, e)
    {
      mem[f * ENTRIES + idx] := e;
    }

    /** A fresh top-level table (mm/mmu.c:79-80). */
    method NewPgd() returns (f: nat)
      requires Valid()
      modifies this`tabs, mem, pmm`free, pmm.bitmap
      ensures Valid()
      ensures f == 0 ==> tabs == old(tabs)
      ensures f != 0 ==> tabs == old(tabs)[Pgd(f) := f] && SameLeaves(old(mem[..]), old(tabs), mem[..], tabs)
    {
      f := AllocTable();
      if f != 0 {
        HouseRoot(old(mem[..]), tabs, Base(), old(pmm.Map()), pmm.Map(), f);
        tabs := tabs[Pgd(f) := f];
      }
    }

    /** Hang a fresh table at an invalid entry. */
    method GrowTable(f: nat, idx: nat, ghost k: Name) returns (next: nat)
      requires Valid() && k in tabs && tabs[k] == f && Level(k) < 3 && idx < ENTRIES && Sub(k, idx) !in tabs
      modifies this`tabs, mem, pmm`free, pmm.bitmap
      ensures Valid() && Grown(Base(), old(mem[..]), old(tabs), old(pmm.Map()), mem[..], tabs, pmm.Map())
      ensures next == 0 <==> old(pmm.free) == 0
      ensures next == 0 ==> tabs == old(tabs) && pmm.free == 0
      ensures next != 0 ==> tabs == old(tabs)[Sub(k, idx) := next] && pmm.free == old(pmm.free) - 1
      ensures next != 0 ==> InMemory(mem[..], f) && FrameOf(Entry(mem[..], f, idx)) == next
    {
      ghost var m := mem[..];
      next := AllocTable();
      if next == 0 {
        return;
      }
      InstallTable(f, idx, next, k, m, old(pmm.Map()));
    }

    /** The new entry, once the table is clear (mm/mmu.c:44, 54 and 64). */
    method InstallTable(f: nat, idx: nat, next: nat, ghost k: Name, ghost m: Memory, ghost pages: Pages)
      requires pmm.Valid() && mem != pmm.bitmap && (Base() + pmm.total) * ENTRIES <= mem.Length
      requires Housed(m, tabs, Base(), pages) && FrameTakes(Base(), pages, pmm.Map(), next) && InMemory(m, next)
      requires next != 0
      requires mem[..] == Zeroed(m, next) && k in tabs && tabs[k] == f && Level(k) < 3 && idx < ENTRIES
      requires Sub(k, idx) !in tabs
      modifies this`tabs, mem
      ensures Valid() && Grown(Base(), m, old(tabs), pages, mem[..], tabs, pmm.Map())
      ensures tabs == old(tabs)[Sub(k, idx) := next]
      ensures InMemory(mem[..], f) && FrameOf(Entry(mem[..], f, idx)) == next
    {
      HouseTable(m, tabs, Base(), pages, pmm.Map(), k, idx, next);
      SetEntry(f, idx, Or(Or(next * PAGE, PTE_TABLE), PTE_VALID));
      tabs := tabs[Sub(k, idx) := next];
      TableEntryDecodes(next);
    }

    /** One level of mm/mmu.c:38-66: follow entry `idx` of a table, hanging a fresh table there if
        the entry is invalid. 0 means that no page was left for it. */
    method EnsureTable(f: nat, idx: nat, ghost k: Name) returns (next: nat)
      requires Valid() && k in tabs && tabs[k] == f && Level(k) < 3 && idx < ENTRIES
      modifies this`tabs, mem, pmm`free, pmm.bitmap
      ensures Valid() && Grown(Base(), old(mem[..]), old(tabs), old(pmm.Map()), mem[..], tabs, pmm.Map())
      ensures Sub(k, idx) in old(tabs) ==> tabs == old(tabs) && pmm.free == old(pmm.free)
      ensures Sub(k, idx) !in old(tabs) && old(pmm.free) == 0 ==> tabs == old(tabs) && pmm.free == 0
      ensures Sub(k, idx) !in old(tabs) && old(pmm.free) > 0 ==>
                tabs == old(tabs)[Sub(k, idx) := next] && pmm.free == old(pmm.free) - 1
      ensures if Sub(k, idx) in tabs then next == tabs[Sub(k, idx)] != 0 else next == 0
    {
      DescendIsName(mem[..], tabs, k, idx);
      if mem[f * ENTRIES + idx] % 2 == 0 {
        next := GrowTable(f, idx, k);
        if next == 0 {
          return;
        }
        assert next == FrameOf(mem[f * ENTRIES + idx]);
      }
      next := FrameOf(mem[f * ENTRIES + idx]);
    }

    /** mm/mmu.c:38-66: the level-3 table for a place, with every table on the way to it; 0 if pages ran out. */
    method EnsurePath(p: Spot) returns (pte: nat)
      requires Valid() && Pgd(p.root) in tabs
      modifies this`tabs, mem, pmm`free, pmm.bitmap
      ensures Valid() && Grown(Base(), old(mem[..]), old(tabs), old(pmm.Map()), mem[..], tabs, pmm.Map())
      ensures if LeafName(p) in tabs then pte == tabs[LeafName(p)] != 0 else pte == 0
      ensures pte != 0 <==> old(pmm.free) >= Missing(old(tabs), p)
      ensures pte != 0 ==> pmm.free == old(pmm.free) - Missing(old(tabs), p) && PathAdded(old(tabs), tabs, p)
    {
      hide FrameTaken;
      ghost var k1 := Sub(Pgd(p.root), p.i0);
      ghost var k2 := Sub(k1, p.i1);
      ghost var m0, t0, p0, f0 := mem[..], tabs, pmm.Map(), pmm.free;
      TablesClosed(m0, tabs, k1, p.i1);
      TablesClosed(m0, tabs, k2, p.i2);
      pte := EnsureTable(p.root, p.i0, Pgd(p.root));
      if pte == 0 {
        return;
      }
      ghost var m1, t1, p1, f1 := mem[..], tabs, pmm.Map(), pmm.free;
      assert Hung(t0, f0, t1, f1, k1);
      pte := EnsureTable(pte, p.i1, k1);
      ghost var m2, t2, p2, f2 := mem[..], tabs, pmm.Map(), pmm.free;
      GrownTrans(Base(), m0, t0, p0, m1, t1, p1, m2, t2, p2);
      if pte == 0 {
        return;
      }
      assert Hung(t1, f1, t2, f2, k2);
      pte := EnsureTable(pte, p.i2, k2);
      GrownTrans(Base(), m0, t0, p0, m2, t2, p2, mem[..], tabs, pmm.Map());
      if pte != 0 {
        assert Hung(t2, f2, tabs, pmm.free, Sub(k2, p.i2));
        PathHung(m0, t0, f0, t1, f1, t2, f2, tabs, pmm.free, p);
      }
    }

    /** mm/mmu.c:34-74. `pgd` is the frame of the top-level table. */
    method MapPage(pgd: nat, va: nat, pa: nat, attrs: nat) returns (r: int)
      requires Valid() && Pgd(pgd) in tabs
      modifies this`tabs, mem, pmm`free, pmm.bitmap
      ensures Valid() && TablesGrew(Base(), old(pmm.Map()), old(tabs), pmm.Map(), tabs)
      ensures (r == 0 || r == -1) && (r == 0 <==> old(pmm.free) >= Missing(old(tabs), SpotOf(pgd, va)))
      ensures r == 0 ==> pmm.free == old(pmm.free) - Missing(old(tabs), SpotOf(pgd, va))
      ensures r == 0 ==> PathAdded(old(tabs), tabs, SpotOf(pgd, va))
      ensures WalksChanged(old(mem[..]), tabs, mem[..], SpotOf(pgd, va), r == 0, PteEntry(pa, attrs))
    {
      r := MapAt(SpotOf(pgd, va), PteEntry(pa, attrs));
    }

    method MapAt(p: Spot, e: nat) returns (r: int)
      requires Valid() && Pgd(p.root) in tabs
      modifies this`tabs, mem, pmm`free, pmm.bitmap
      ensures Valid() && TablesGrew(Base(), old(pmm.Map()), old(tabs), pmm.Map(), tabs)
      ensures (r == 0 || r == -1) && (r == 0 <==> old(pmm.free) >= Missing(old(tabs), p))
      ensures r == 0 ==> pmm.free == old(pmm.free) - Missing(old(tabs), p) && PathAdded(old(tabs), tabs, p)
      ensures WalksChanged(old(mem[..]), tabs, mem[..], p, r == 0, e)
    {
      ghost var m0, t0 := mem[..], tabs;
      var pte := EnsurePath(p);
      if pte == 0 {
        LeavesToWalks(m0, t0, mem[..], tabs, p, false, e);
        return -1;
      }
      ghost var m1 := mem[..];
      LeafLevel(p);
      WriteLeaf(m1, tabs, LeafName(p), p.i3, e);
      SetEntry(pte, p.i3, e);
      LeavesToWalks(m0, t0, mem[..], tabs, p, true, e);
      return 0;
    }

    /** The lookup of mm/mmu.c:199-214 and 227-242: the level-3 table of a place, 0 if a level is missing. */
    method FindLeaf(p: Spot) returns (pte: nat)
      requires Valid() && Pgd(p.root) in tabs
      ensures if LeafName(p) in tabs then pte == tabs[LeafName(p)] != 0 else pte == 0
    {
      ghost var k1 := Sub(Pgd(p.root), p.i0);
      ghost var k2 := Sub(k1, p.i1);
      TablesClosed(mem[..], tabs, k1, p.i1);
      TablesClosed(mem[..], tabs, k2, p.i2);
      pte := NextTable(p.root, p.i0, Pgd(p.root));
      if pte == 0 {
        return;
      }
      pte := NextTable(pte, p.i1, k1);
      if pte == 0 {
        return;
      }
      pte := NextTable(pte, p.i2, k2);
    }

    method NextTable(f: nat, idx: Index, ghost k: Name) returns (next: nat)
      requires Valid() && k in tabs && tabs[k] == f && Level(k) < 3
      ensures if Sub(k, idx) in tabs then next == tabs[Sub(k, idx)] != 0 else next == 0
    {
      DescendIsName(mem[..], tabs, k, idx);
      if mem[f * ENTRIES + idx] % 2 == 0 {
        return 0;
      }
      next := FrameOf(mem[f * ENTRIES + idx]);
    }

    /** The level-3 table holding a valid entry for a place, and the entry; 0 if there is none. */
    method FindValid(p: Spot) returns (pte: nat, was: nat)
      requires Valid() && Pgd(p.root) in tabs
      ensures pte != 0 <==> IsValid(Walk(mem[..], p))
      ensures pte != 0 ==> LeafName(p) in tabs && pte == tabs[LeafName(p)] && was == Walk(mem[..], p)
    {
      hide Pmm.Map;
      WalkIsLeaf(mem[..], tabs, p);
      was := 0;
      pte := FindLeaf(p);
      if pte != 0 {
        was := mem[pte * ENTRIES + p.i3];
        if was % 2 == 0 {
          pte := 0;
        }
      }
    }

    /** mm/mmu.c:195-221. */
    method UnmapPage(pgd: nat, va: nat) returns (r: int)
      requires Valid() && Pgd(pgd) in tabs
      modifies mem
      ensures Valid()
      ensures (r == 0 || r == -1) && (r == 0 <==> IsValid(Walk(old(mem[..]), SpotOf(pgd, va))))
      ensures WalksChanged(old(mem[..]), tabs, mem[..], SpotOf(pgd, va), r == 0, 0)
    {
      var pte, was := FindValid(SpotOf(pgd, va));
      if pte == 0 {
        return -1;
      }
      Overwrite(SpotOf(pgd, va), pte, 0);
      return 0;
    }

    /** mm/mmu.c:223-250. */
    method UpdatePageAttrs(pgd: nat, va: nat, attrs: nat) returns (r: int)
      requires Valid() && Pgd(pgd) in tabs
      modifies mem
      ensures Valid()
      ensures (r == 0 || r == -1) && (r == 0 <==> IsValid(Walk(old(mem[..]), SpotOf(pgd, va))))
      ensures WalksChanged(old(mem[..]), tabs, mem[..], SpotOf(pgd, va), r == 0,
                           PteEntry(Walk(old(mem[..]), SpotOf(pgd, va)), attrs))
    {
      var pte, was := FindValid(SpotOf(pgd, va));
      if pte == 0 {
        return -1;
      }
      Overwrite(SpotOf(pgd, va), pte, PteEntry(was, attrs));
      return 0;
    }

    method Overwrite(p: Spot, pte: nat, e: nat)
      requires Valid() && Pgd(p.root) in tabs && LeafName(p) in tabs && pte == tabs[LeafName(p)]
      modifies mem
      ensures Valid() && WalksChanged(old(mem[..]), tabs, mem[..], p, true, e)
    {
      ghost var m := mem[..];
      LeafLevel(p);
      WriteLeaf(m, tabs, LeafName(p), p.i3, e);
      SetEntry(pte, p.i3, e);
      LeavesToWalks(m, tabs, mem[..], tabs, p, true, e);
    }
  }

  /** No table without the table above it. */
  lemma {:induction false} TablesClosed(m: Memory, tabs: Tables, k: Name, i: nat)
    requires TableTree(m, tabs)
    ensures k !in tabs ==> Sub(k, i) !in tabs
  {}

  lemma {:induction false} AddressToFrame(base: nat, t: nat)
    requires base % PAGE == 0 && t >= base && (t - base) % PAGE == 0
    ensures t / PAGE == base / PAGE + (t - base) / PAGE && t == t / PAGE * PAGE
  {}

  lemma {:induction false} PageBelow(base: nat, size: nat, total: nat, pa: nat)
    requires base % PAGE == 0 && pa >= base && (pa - base) % PAGE == 0 && (pa - base) / PAGE < total
    requires total * PAGE <= size
    requires base + size < TWO64
    ensures pa % PAGE == 0 && pa < TWO64
  {
    assert pa - base == (pa - base) / PAGE * PAGE;
  }

  lemma {:induction false} FrameToAddress(base: nat, size: nat, total: nat, pa: nat)
    requires base % PAGE == 0 && pa % PAGE == 0 && base / PAGE <= pa / PAGE < base / PAGE + total
    requires total * PAGE <= size
    ensures base <= pa < base + size && (pa - base) / PAGE == pa / PAGE - base / PAGE
  {
    var i := pa / PAGE - base / PAGE;
    assert pa == pa / PAGE * PAGE && base == base / PAGE * PAGE;
    assert pa - base == i * PAGE;
  }

  lemma {:induction false} OneCleared(m: Pages, i: nat)
    requires i < |m|
    ensures Marked(m, i, i + 1, false) == m[i := false]
  {}

  lemma {:induction false} GivenHoused(m: Memory, tabs: Tables, base: nat, pages: Pages, f: nat)
    requires Housed(m, tabs, base, pages) && FrameTaken(base, pages, f) && f !in tabs.Values
    ensures Housed(m, tabs, base, pages[f - base := false])
  {
    forall k | k in tabs ensures tabs[k] != f { assert tabs[k] in tabs.Values; }
  }

  /** Taking one page for a new table. */
  lemma {:induction false} NewFrame(base: nat, m: Pages, m': Pages, tabs: Tables, k: Name, f: nat)
    requires FrameTakes(base, m, m', f) && k !in tabs
    requires forall n :: n in tabs ==> FrameTaken(base, m, tabs[n])
    ensures OnlyTables(base, m, m', tabs[k := f])
    ensures forall n :: n in tabs || n == k ==> FrameTaken(base, m', tabs[k := f][n])
  {
    var tabs' := tabs[k := f];
    assert k in tabs' && tabs'[k] == f;
    assert f in tabs'.Values;
  }
}
