/**
 The kernel's allocator of mm/vmalloc.c over the free list, the virtual memory manager and the page
 allocator: a guard page, data pages, a guard page, and the way back when pages run out.
 */
module VmallocClass {
  import opened Bits
  import PageMap
  import opened PageTables
  import opened PageRanges
  import opened VmaMap
  import opened MmuClass
  import opened AreaTables
  import opened VmmClass
  import opened AddressSpace
  import opened FreeSpaceClass
  import opened VmallocBooks

  // VMM_ATTR_PXN, and R | W | NORMAL | PXN (include/mm/vmm.h:11-17).
  const GUARD_ATTRS: nat := 0x40
  const DATA_ATTRS: nat := 0x53

  class Vmalloc {
    const space: FreeSpace
    const vmm: Vmm
    /** Regions handed out, and regions forgotten because no block was left to record them. */
    ghost var live: seq<Extent>

    /** The window is accounted for, no area lies in its free part, and no two free extents touch. */
    ghost predicate Valid()
      reads this, space, space.blocks
      reads vmm, vmm.areas, vmm.areas.tree, vmm.areas.tree.pool, vmm.areas.vmas, vmm.mmu, vmm.mmu.mem, vmm.mmu.pmm
      reads vmm.mmu.pmm.bitmap
    {
      vmm.Valid() && Separate() && Window(vmm.areas.Vmas())
    }

    ghost predicate Window(vs: seq<Vma>)
      reads this, space, space.blocks
    {
      && space.Valid() && Accounted(space.Space(), live, space.next) && FreeClear(vs, space.Space(), space.next)
      && NoTouch(space.Space())
    }

    /** The free list shares no object with the memory manager. */
    ghost predicate Separate()
    {
      var a: set<object> := {this, space, space.blocks};
      var b: set<object> := {vmm, vmm.areas, vmm.areas.tree, vmm.areas.tree.pool, vmm.areas.vmas};
      var c: set<object> := {vmm.mmu, vmm.mmu.mem, vmm.mmu.pmm, vmm.mmu.pmm.bitmap};
      a !! b && a !! c
    }

    /** Before the first allocation: nothing handed out, no area in the window. */
    constructor (s: FreeSpace, v: Vmm)
      requires s.Valid() && s.Space() == [] && s.next == VMALLOC_START && v.Valid()
      requires AllClear(v.areas.Vmas(), VMALLOC_START, VMALLOC_END - VMALLOC_START)
      requires var a: set<object> := {s, s.blocks};
               var b: set<object> := {v, v.areas, v.areas.tree, v.areas.tree.pool, v.areas.vmas};
               var c: set<object> := {v.mmu, v.mmu.mem, v.mmu.pmm, v.mmu.pmm.bitmap};
               a !! b && a !! c
      ensures Valid() && space == s && vmm == v && live == []
    {
      space, vmm, live := s, v, [];
      new;
      StartsValid();
    }

    lemma StartsValid()
      requires vmm.Valid() && Separate() && space.Valid() && space.Space() == [] && space.next == VMALLOC_START
      requires live == []
      requires AllClear(vmm.areas.Vmas(), VMALLOC_START, VMALLOC_END - VMALLOC_START)
      ensures Valid()
    {
      NothingAccounted(space.Space(), live, space.next);
      NothingClear(vmm.areas.Vmas(), space.Space(), space.next);
    }

    /** Areas, taken pages and tables. */
    ghost function State(): Ledger
      reads vmm, vmm.areas, vmm.areas.tree, vmm.areas.tree.pool, vmm.areas.vmas, vmm.mmu, vmm.mmu.mem, vmm.mmu.pmm
      reads vmm.mmu.pmm.bitmap
      requires vmm.Valid()
    {
      Ledger(vmm.areas.Vmas(), vmm.mmu.pmm.Map(), vmm.mmu.tabs)
    }

    lemma StateSound()
      requires vmm.Valid()
      ensures Ordered(State().vs)
      ensures forall k :: k in State().tabs ==> FrameTaken(vmm.mmu.Base(), State().pages, State().tabs[k])
    {}

    ghost function FreeFrames(): nat
      reads vmm, vmm.areas, vmm.areas.tree, vmm.areas.tree.pool, vmm.areas.vmas, vmm.mmu, vmm.mmu.mem, vmm.mmu.pmm
      reads vmm.mmu.pmm.bitmap
      requires vmm.Valid()
    {
      PageMap.CountFree(State().pages)
    }

    ghost predicate Holding(w0: Ledger, mine: set<Vma>, spare: set<nat>)
      reads vmm, vmm.areas, vmm.areas.tree, vmm.areas.tree.pool, vmm.areas.vmas, vmm.mmu, vmm.mmu.mem, vmm.mmu.pmm
      reads vmm.mmu.pmm.bitmap
    {
      vmm.Valid() && Mine(vmm.mmu.Base(), w0, State(), mine, spare)
    }

    method TakePage(ghost w0: Ledger, ghost mine: set<Vma>) returns (pa: nat)
      requires Holding(w0, mine, {})
      modifies vmm.mmu.pmm`free, vmm.mmu.pmm.bitmap
      ensures pa == 0 ==> Holding(w0, mine, {})
      ensures pa != 0 ==> pa % PAGE == 0 && pa < TWO64 && Holding(w0, mine, {pa / PAGE})
      ensures pa != 0 ==> vmm.Valid() && FreeFrames() + 1 == old(FreeFrames())
      ensures vmm.areas.Valid() && vmm.areas.Vmas() == old(vmm.areas.Vmas())
    {
      hide Mine;
      ghost var w, b := State(), vmm.mmu.Base();
      pa := vmm.mmu.TakePage();
      assert vmm.Valid() && State() == w.(pages := vmm.mmu.pmm.Map());
      if pa != 0 {
        MineTake(b, w0, w, mine, vmm.mmu.pmm.Map(), pa / PAGE);
      }
    }

    method GivePage(pa: nat, ghost f: nat, ghost w0: Ledger, ghost mine: set<Vma>)
      requires Holding(w0, mine, {f}) && f == pa / PAGE && pa != 0 && pa % PAGE == 0
      modifies vmm.mmu.pmm`free, vmm.mmu.pmm.bitmap
      ensures Holding(w0, mine, {})
    {
      hide Owned;
      ghost var w, b := State(), vmm.mmu.Base();
      MineNoTable(b, w0, w, mine, f);
      MineGive(b, w0, w, mine, f);
      vmm.mmu.GivePage(pa);
      assert State() == w.(pages := w.pages[f - b := false]);
    }

    /** A vmm_map that adds its area. */
    method AddPage(v: Vma, ghost w: Ledger)
      requires vmm.Valid() && w == State() && v.size == PAGE && Proper(v) && MapCheck(w.vs, v.va, v.pa, PAGE) == 0
      requires KERNEL_FIRST * PAGE <= v.va && vmm.areas.freeList != []
      modifies vmm, vmm.areas, vmm.areas.tree, vmm.areas.tree.pool, vmm.areas.vmas
      modifies vmm.mmu`tabs, vmm.mmu.mem, vmm.mmu.pmm`free, vmm.mmu.pmm.bitmap
      ensures vmm.Valid() && State().vs == Inserted(w.vs, LastAtMost(w.vs, v.va) + 1, v)
      ensures TablesGrew(vmm.mmu.Base(), w.pages, w.tabs, State().pages, State().tabs)
    {
      hide Vmm.Valid, Entered, TablesGrew, Inserted, LastAtMost, PageMapOf, VmaMap.Block;
      var r := vmm.Map(v.va, v.pa, PAGE, v.attrs);
    }

    /** One vmm_map of a page that is free for it. */
    method MapPage(v: Vma, ghost f: nat, ghost w0: Ledger, ghost mine: set<Vma>)
      requires Holding(w0, mine, {f}) && f == Frame(v)
      requires v.size == PAGE && Proper(v) && AllClear(State().vs, v.va, PAGE)
      requires KERNEL_FIRST * PAGE <= v.va && vmm.areas.freeList != []
      modifies vmm, vmm.areas, vmm.areas.tree, vmm.areas.tree.pool, vmm.areas.vmas
      modifies vmm.mmu`tabs, vmm.mmu.mem, vmm.mmu.pmm`free, vmm.mmu.pmm.bitmap
      ensures Holding(w0, mine + {v}, {}) && v !in mine && |State().vs| == |old(State()).vs| + 1
      ensures FreeFrames() <= old(FreeFrames())
    {
      ghost var w, b := State(), vmm.mmu.Base();
      PagePasses(w.vs, v);
      AddPage(v, w);
      MineMap(b, w0, w, mine, v, State());
    }

    /** One vmm_unmap of a page mapped before. */
    method UnmapPage(va: nat, ghost v: Vma, ghost w0: Ledger, ghost mine: set<Vma>)
      requires Holding(w0, mine, {}) && v in mine && v.va == va && v.size == PAGE
      modifies vmm, vmm.areas, vmm.areas.tree, vmm.areas.tree.pool, vmm.mmu.mem
      ensures Holding(w0, mine - {v}, {Frame(v)})
    {
      hide Vmm.Valid, Owned;
      ghost var w, b := State(), vmm.mmu.Base();
      ghost var k := DropArea(va, v, w);
      MineUnmap(b, w0, w, mine, k);
    }

    /** A vmm_unmap that finds its area. */
    method DropArea(va: nat, ghost v: Vma, ghost w: Ledger) returns (ghost k: nat)
      requires vmm.Valid() && w == State() && v in w.vs && v.va == va && v.size == PAGE
      modifies vmm, vmm.areas, vmm.areas.tree, vmm.areas.tree.pool, vmm.mmu.mem
      ensures vmm.Valid() && k < |w.vs| && w.vs[k] == v && State() == w.(vs := Removed(w.vs, k))
    {
      hide View, RangeInvalid, OthersSame, PageMapOf, VmaMap.Block, Ordered, HasArea;
      StateSound();
      AreaThere(w.vs, v);
      ghost var r;
      r, k := vmm.Unmap(va, PAGE);
      SameArea(w.vs, v, k);
    }

    /** mm/vmalloc.c:208-211 and 225-228: the frame is looked up before the page goes. */
    method DropPage(va: nat, ghost v: Vma, ghost w0: Ledger, ghost mine: set<Vma>)
      requires Holding(w0, mine, {}) && v in mine && v.va == va && v.size == PAGE && v.pa != 0 && v.pa % PAGE == 0
      modifies vmm, vmm.areas, vmm.areas.tree, vmm.areas.tree.pool, vmm.mmu.mem, vmm.mmu.pmm`free, vmm.mmu.pmm.bitmap
      ensures Holding(w0, mine - {v}, {})
    {
      AreaTranslates(State().vs, v);
      var pa := vmm.VirtToPhys(va);
      UnmapPage(va, v, w0, mine);
      GivePage(pa, Frame(v), w0, mine - {v});
    }

    /** The loops of mm/vmalloc.c:207-212, 224-229 and 250-256 over the data pages. */
    method DropRow(dataVa: nat, n: nat, ghost g: Vma, ghost ds: seq<Vma>, ghost w0: Ledger, ghost all: set<Vma>)
      returns (ghost mine: set<Vma>)
      requires Holding(w0, all, {}) && Rest(all, g, ds, 0) && Row(ds, dataVa) && n <= |ds| && g.va < dataVa
      modifies vmm, vmm.areas, vmm.areas.tree, vmm.areas.tree.pool, vmm.mmu.mem, vmm.mmu.pmm`free, vmm.mmu.pmm.bitmap
      ensures Holding(w0, mine, {}) && Rest(mine, g, ds, n)
    {
      mine := all;
      var j := 0;
      while j < n
        invariant 0 <= j <= n && Holding(w0, mine, {}) && Rest(mine, g, ds, j)
      {
        RestStep(mine, g, ds, j, dataVa);
        DropPage(dataVa + j * PAGE, ds[j], w0, mine);
        mine := mine - {ds[j]};
        j := j + 1;
      }
    }

    /** mm/vmalloc.c:207-214 and 224-231: page by page, then the guard. */
    method RollBack(baseVa: nat, dataVa: nat, n: nat, guard: nat, ghost g: Vma, ghost ds: seq<Vma>, ghost w0: Ledger,
                    ghost all: set<Vma>)
      requires Holding(w0, all, {}) && Rest(all, g, ds, 0) && Row(ds, dataVa) && |ds| == n && baseVa < dataVa
      requires g.va == baseVa && g.size == PAGE && g.pa == guard != 0 && guard % PAGE == 0
      modifies vmm, vmm.areas, vmm.areas.tree, vmm.areas.tree.pool, vmm.mmu.mem, vmm.mmu.pmm`free, vmm.mmu.pmm.bitmap
      ensures Holding(w0, {}, {})
    {
      ghost var mine := DropRow(dataVa, n, g, ds, w0, all);
      RestEnds(mine, g, ds);
      UnmapPage(baseVa, g, w0, mine);
      GivePage(guard, Frame(g), w0, mine - {g});
    }

    /** Take a page and map it: the guards, and one round of mm/vmalloc.c:205-219. */
    method AddOne(va: nat, attrs: nat, ghost w0: Ledger, ghost mine: set<Vma>) returns (pa: nat, ghost v: Vma)
      requires Holding(w0, mine, {}) && AllClear(State().vs, va, PAGE)
      requires FreeFrames() > 0 ==> |State().vs| < vmm.areas.vmas.Length
      requires va % PAGE == 0 && KERNEL_FIRST * PAGE <= va && va + PAGE < TWO64
      modifies vmm, vmm.areas, vmm.areas.tree, vmm.areas.tree.pool, vmm.areas.vmas
      modifies vmm.mmu`tabs, vmm.mmu.mem, vmm.mmu.pmm`free, vmm.mmu.pmm.bitmap
      ensures pa == 0 ==> Holding(w0, mine, {})
      ensures pa != 0 ==> v == Vma(va, pa, PAGE, attrs) && pa % PAGE == 0 && Holding(w0, mine + {v}, {})
      ensures pa != 0 ==> |State().vs| == |old(State()).vs| + 1 && FreeFrames() + 1 <= old(FreeFrames())
    {
      v := Vma(va, 0, PAGE, attrs);
      pa := TakePage(w0, mine);
      if pa != 0 {
        var u := Vma(va, pa, PAGE, attrs);
        MapPage(u, pa / PAGE, w0, mine);
        v := u;
      }
    }

    /** `i` data pages are mapped behind the first guard. */
    ghost predicate Filling(w0: Ledger, mine: set<Vma>, g: Vma, ds: seq<Vma>, baseVa: nat, i: nat)
      reads vmm, vmm.areas, vmm.areas.tree, vmm.areas.tree.pool, vmm.areas.vmas, vmm.mmu, vmm.mmu.mem, vmm.mmu.pmm
      reads vmm.mmu.pmm.bitmap
    {
      && Holding(w0, mine, {}) && Used(w0, State(), 1 + i)
      && Filled(mine, g, ds, baseVa, i)
    }

    /** One round of mm/vmalloc.c:204-220. */
    method FillOne(baseVa: nat, pages: nat, i: nat, guard: nat, ghost g: Vma, ghost w0: Ledger, ghost mine: set<Vma>,
                   ghost ds: seq<Vma>)
      returns (ok: bool, ghost mine': set<Vma>, ghost ds': seq<Vma>)
      requires Filling(w0, mine, g, ds, baseVa, i) && g.pa == guard && i < pages && Region(w0.vs, baseVa, pages)
      requires NodesLast(w0, pages, vmm.areas.vmas.Length)
      modifies vmm, vmm.areas, vmm.areas.tree, vmm.areas.tree.pool, vmm.areas.vmas
      modifies vmm.mmu`tabs, vmm.mmu.mem, vmm.mmu.pmm`free, vmm.mmu.pmm.bitmap
      ensures !ok ==> Holding(w0, {}, {})
      ensures ok ==> Filling(w0, mine', g, ds', baseVa, i + 1)
    {
      NextClear(w0.vs, State().vs, mine, g, ds, baseVa, pages, i);
      NodeLeft(w0, State(), 1 + i, pages, vmm.areas.vmas.Length);
      var dataVa := baseVa + PAGE;
      var va := dataVa + i * PAGE;
      var page, v := AddOne(va, DATA_ATTRS, w0, mine);
      ok, mine', ds' := page != 0, mine, ds;
      if ok {
        FilledGrow(mine, g, ds, baseVa, i, v);
        mine', ds' := mine + {v}, ds + [v];
      } else {
        RollBack(baseVa, dataVa, i, guard, g, ds, w0, mine);
      }
    }

    /** mm/vmalloc.c:203-220: the data pages, or none if a page cannot be had. */
    method Fill(baseVa: nat, pages: nat, guard: nat, ghost g: Vma, ghost w0: Ledger, ghost m0: set<Vma>)
      returns (ok: bool, ghost mine: set<Vma>, ghost ds: seq<Vma>)
      requires Filling(w0, m0, g, [], baseVa, 0) && g.pa == guard && Region(w0.vs, baseVa, pages)
      requires NodesLast(w0, pages, vmm.areas.vmas.Length)
      modifies vmm, vmm.areas, vmm.areas.tree, vmm.areas.tree.pool, vmm.areas.vmas
      modifies vmm.mmu`tabs, vmm.mmu.mem, vmm.mmu.pmm`free, vmm.mmu.pmm.bitmap
      ensures !ok ==> Holding(w0, {}, {})
      ensures ok ==> Filling(w0, mine, g, ds, baseVa, pages)
    {
      ok, mine, ds := true, m0, [];
      var i := 0;
      while i < pages && ok
        invariant 0 <= i <= pages && (ok ==> Filling(w0, mine, g, ds, baseVa, i)) && (!ok ==> Holding(w0, {}, {}))
        decreases pages - i
      {
        ok, mine, ds := FillOne(baseVa, pages, i, guard, g, w0, mine, ds);
        i := i + 1;
      }
    }

    /** mm/vmalloc.c:222-235: the second guard, or everything back. */
    method Close(baseVa: nat, pages: nat, guard: nat, ghost g: Vma, ghost ds: seq<Vma>, ghost w0: Ledger,
                 ghost mine: set<Vma>)
      returns (ok: bool, ghost h: Vma)
      requires Filling(w0, mine, g, ds, baseVa, pages) && g.pa == guard && Region(w0.vs, baseVa, pages)
      requires NodesLast(w0, pages, vmm.areas.vmas.Length)
      modifies vmm, vmm.areas, vmm.areas.tree, vmm.areas.tree.pool, vmm.areas.vmas
      modifies vmm.mmu`tabs, vmm.mmu.mem, vmm.mmu.pmm`free, vmm.mmu.pmm.bitmap
      ensures !ok ==> Holding(w0, {}, {})
      ensures ok ==> Holding(w0, mine + {h}, {}) && Closing(h, baseVa, pages) && Filled(mine, g, ds, baseVa, pages)
    {
      NextClear(w0.vs, State().vs, mine, g, ds, baseVa, pages, pages);
      NodeLeft(w0, State(), 1 + pages, pages, vmm.areas.vmas.Length);
      var dataVa := baseVa + PAGE;
      var va := dataVa + pages * PAGE;
      var page;
      page, h := AddOne(va, GUARD_ATTRS, w0, mine);
      ok := page != 0;
      if !ok {
        RollBack(baseVa, dataVa, pages, guard, g, ds, w0, mine);
      }
    }

    /** mm/vmalloc.c:196-237: guard, data, guard, all of them or none. */
    method Populate(baseVa: nat, pages: nat, ghost w0: Ledger)
      returns (ok: bool, ghost mine: set<Vma>, ghost g: Vma, ghost ds: seq<Vma>, ghost h: Vma)
      requires vmm.Valid() && w0 == State() && Region(w0.vs, baseVa, pages)
      requires NodesLast(w0, pages, vmm.areas.vmas.Length)
      modifies vmm, vmm.areas, vmm.areas.tree, vmm.areas.tree.pool, vmm.areas.vmas
      modifies vmm.mmu`tabs, vmm.mmu.mem, vmm.mmu.pmm`free, vmm.mmu.pmm.bitmap
      ensures !ok ==> Holding(w0, {}, {})
      ensures ok ==> Holding(w0, mine + {h}, {}) && Filled(mine, g, ds, baseVa, pages) && Closing(h, baseVa, pages)
    {
      MineStart(vmm.mmu.Base(), w0);
      FirstClear(w0.vs, baseVa, pages);
      NodeLeft(w0, w0, 0, pages, vmm.areas.vmas.Length);
      mine, ds := {}, [];
      var guard;
      guard, g := AddOne(baseVa, GUARD_ATTRS, w0, {});
      h := g;
      ok := guard != 0;
      if !ok {
        return;
      }
      assert Filled({} + {g}, g, [], baseVa, 0);
      ok, mine, ds := Fill(baseVa, pages, guard, g, w0, {} + {g});
      if !ok {
        return;
      }
      ok, h := Close(baseVa, pages, guard, g, ds, w0, mine);
    }

    /** mm/vmalloc.c:192: find the region, and mark it live. */
    method Reserve(total: nat, ghost vs: seq<Vma>) returns (base: nat)
      requires Window(vs) && 0 < total && total % PAGE == 0 && space.next + total < TWO64
      modifies this, space, space.blocks
      ensures Window(vs) && Search(base, space.Space(), space.next) == Find(old(space.Space()), old(space.next), total)
      ensures space.Room() <==> old(space.Room()) || |space.Space()| < |old(space.Space())|
      ensures base == 0 ==> live == old(live)
      ensures base != 0 ==> live == [Extent(base, total)] + old(live) && ClearPages(vs, base, total)
      ensures base != 0 ==> VMALLOC_START <= base && base + total <= VMALLOC_END
    {
      hide FreeSpace.Valid, Accounted, ClearPages, NoTouch, Touch, Best, Cut;
      ghost var fs, next := space.Space(), space.next;
      FindAccountedIff(fs, live, next, total);
      FindNoTouch(fs, live, next, total);
      base := space.FindFreeSpace(total);
      if base != 0 {
        FindClear(vs, fs, next, total);
        live := [Extent(base, total)] + live;
      }
    }

    /** mm/vmalloc.c:198, 215, 232 and 268: the region goes back to the free list, if a block can be had. The
        account is kept exactly unless the region touches a free extent, and lost if it does. */
    method Return(base: nat, total: nat, ghost vs: seq<Vma>, ghost k: nat) returns (merged: bool)
      requires Window(vs) && k < |live| && live[k] == Extent(base, total) && total > 0
      requires ClearPages(vs, base, total) && base + total < TWO64
      modifies this, space, space.blocks
      ensures merged <==> old(space.Room()) && TouchesAny(Extent(base, total), old(space.Space()))
      ensures live == if old(space.Room()) then old(live)[..k] + old(live)[k + 1..] else old(live)
      ensures !merged ==> Window(vs)
      ensures merged ==> space.Valid() && !Accounted(space.Space(), live, space.next)
    {
      hide FreeSpace.Valid, Accounted, Touch, ClearPages;
      ghost var fs, room, next, e := space.Space(), space.Room(), space.next, Extent(base, total);
      ReturnAccounted(fs, live, next, k);
      PushedTouch(e, fs);
      ghost var i, j;
      merged, i, j := space.AddFreeSpace(base, total);
      if room {
        live := live[..k] + live[k + 1..];
      }
      if merged {
        MergedLost([e] + fs, live, next, i, j, space.Space());
      }
    }

    /** The areas are those of `w0`, and since then pages were taken for tables only. */
    ghost predicate Restored(w0: Ledger)
      reads vmm, vmm.areas, vmm.areas.tree, vmm.areas.tree.pool, vmm.areas.vmas, vmm.mmu, vmm.mmu.mem, vmm.mmu.pmm
      reads vmm.mmu.pmm.bitmap
    {
      vmm.Valid() && State().vs == w0.vs && TablesGrew(vmm.mmu.Base(), w0.pages, w0.tabs, State().pages, State().tabs)
    }

    /** Since `w0`, a guard, `pages` data pages and a guard were mapped from `l.base` on, each on a frame of its own. */
    ghost predicate Laid(w0: Ledger, pages: nat, l: Layout)
      reads vmm, vmm.areas, vmm.areas.tree, vmm.areas.tree.pool, vmm.areas.vmas, vmm.mmu, vmm.mmu.mem, vmm.mmu.pmm
      reads vmm.mmu.pmm.bitmap
    {
      Holding(w0, l.mine + {l.h}, {}) && Filled(l.mine, l.g, l.ds, l.base, pages) && Closing(l.h, l.base, pages)
    }

    /** mm/vmalloc.c:196-237 without the free list. */
    method Furnish(base: nat, pages: nat, total: nat, ghost w0: Ledger) returns (ok: bool, ghost l: Layout)
      requires Valid() && w0 == State() && total == (pages + 2) * PAGE && live != [] && live[0] == Extent(base, total)
      requires ClearPages(w0.vs, base, total) && VMALLOC_START <= base && base + total <= VMALLOC_END
      requires NodesLast(w0, pages, vmm.areas.vmas.Length)
      modifies vmm, vmm.areas, vmm.areas.tree, vmm.areas.tree.pool, vmm.areas.vmas
      modifies vmm.mmu`tabs, vmm.mmu.mem, vmm.mmu.pmm`free, vmm.mmu.pmm.bitmap
      ensures Valid()
      ensures !ok ==> Restored(w0)
      ensures ok ==> l.base == base && Laid(w0, pages, l)
    {
      hide Vmm.Valid, FreeSpace.Valid, Owned, Filled, Closing, Accounted, FreeClear, NoTouch, TablesGrew;
      ghost var mine, g, ds, h;
      ok, mine, g, ds, h := Populate(base, pages, w0);
      l := Layout(base, mine, g, ds, h);
      assert Window(w0.vs);
      if ok {
        LaidInside(mine, g, ds, h, base, pages, total);
        WindowKept(w0.vs, State().vs, mine + {h});
      } else {
        MineNothing(vmm.mmu.Base(), w0, State());
      }
    }

    lemma WindowKept(vs0: seq<Vma>, vs: seq<Vma>, all: set<Vma>)
      requires Window(vs0) && Added(vs0, vs, all) && live != [] && Inside(all, live[0])
      ensures Window(vs)
    {
      assert live == [live[0]] + live[1..];
      LaidClear(vs0, vs, all, live[0], space.Space(), live[1..], space.next);
    }

    /** mm/vmalloc.c:196-237 in a region that was just found: the region goes back if pages run out. */
    method Settle(base: nat, pages: nat, total: nat, ghost w0: Ledger) returns (ptr: nat, merged: bool, ghost l: Layout)
      requires Valid() && w0 == State() && total == (pages + 2) * PAGE && live != [] && live[0] == Extent(base, total)
      requires ClearPages(w0.vs, base, total) && VMALLOC_START <= base && base + total <= VMALLOC_END
      requires NodesLast(w0, pages, vmm.areas.vmas.Length)
      modifies this, space, space.blocks, vmm, vmm.areas, vmm.areas.tree, vmm.areas.tree.pool, vmm.areas.vmas
      modifies vmm.mmu`tabs, vmm.mmu.mem, vmm.mmu.pmm`free, vmm.mmu.pmm.bitmap
      ensures merged <==> ptr == 0 && old(space.Room()) && TouchesAny(Extent(base, total), old(space.Space()))
      ensures if merged then Lost() else Valid()
      ensures ptr == 0 ==> Restored(w0)
      ensures ptr != 0 ==> l.base == base && ptr == base + PAGE && Laid(w0, pages, l) && live == old(live)
    {
      hide Vmm.Valid, FreeSpace.Valid, Laid, Accounted, FreeClear, NoTouch, TouchesAny, ClearPages, TablesGrew;
      var ok;
      ok, l := Furnish(base, pages, total, w0);
      ptr, merged := base + PAGE, false;
      if !ok {
        merged := GiveBack(base, total, w0.vs, 0);
        ptr := 0;
      }
    }

    /** The manager is sound, but free and live extents no longer account for the window. */
    ghost predicate Lost()
      reads this, space, space.blocks
      reads vmm, vmm.areas, vmm.areas.tree, vmm.areas.tree.pool, vmm.areas.vmas
      reads vmm.mmu, vmm.mmu.mem, vmm.mmu.pmm, vmm.mmu.pmm.bitmap
    {
      vmm.Valid() && space.Valid() && !Accounted(space.Space(), live, space.next)
    }

    method GiveBack(base: nat, total: nat, ghost vs: seq<Vma>, ghost k: nat) returns (merged: bool)
      requires Valid() && vs == State().vs && k < |live| && live[k] == Extent(base, total) && total > 0
      requires ClearPages(vs, base, total) && base + total <= VMALLOC_END
      modifies this, space, space.blocks
      ensures merged <==> old(space.Room()) && TouchesAny(Extent(base, total), old(space.Space()))
      ensures live == if old(space.Room()) then old(live)[..k] + old(live)[k + 1..] else old(live)
      ensures vmm.Valid() && State() == old(State()) && if merged then Lost() else Valid()
    {
      merged := Return(base, total, vs, k);
    }

    /** mm/vmalloc.c:192-237: NULL with everything given back, or the address of the data. */
    method Build(pages: nat, total: nat, ghost w0: Ledger) returns (ptr: nat, merged: bool, ghost l: Layout)
      requires Valid() && w0 == State() && total == (pages + 2) * PAGE && space.next + total < TWO64
      requires Find(space.Space(), space.next, total).va != 0 ==> NodesLast(w0, pages, vmm.areas.vmas.Length)
      modifies this, space, space.blocks, vmm, vmm.areas, vmm.areas.tree, vmm.areas.tree.pool, vmm.areas.vmas
      modifies vmm.mmu`tabs, vmm.mmu.mem, vmm.mmu.pmm`free, vmm.mmu.pmm.bitmap
      ensures merged <==> ptr == 0 && WouldMerge(old(space.Space()), old(space.next), old(space.Room()), total)
      ensures if merged then Lost() else Valid()
      ensures ptr == 0 ==> Restored(w0)
      ensures Find(old(space.Space()), old(space.next), total).va == 0 ==>
                ptr == 0 && State() == w0 && live == old(live)
      ensures ptr != 0 ==> VMALLOC_START <= l.base && l.base + total <= VMALLOC_END
      ensures ptr != 0 ==> ptr == l.base + PAGE && Laid(w0, pages, l)
      ensures ptr != 0 ==> live == [Extent(l.base, total)] + old(live)
    {
      hide Vmm.Valid, FreeSpace.Valid, Laid, Accounted, NoTouch, Touch, ClearPages, Find;
      ptr, merged, l := 0, false, Layout(0, {}, Vma(0, 0, 0, 0), [], Vma(0, 0, 0, 0));
      var base := Reserve(total, w0.vs);
      assert vmm.Valid() && State() == w0;
      if base != 0 {
        ptr, merged, l := Settle(base, pages, total, w0);
      }
    }

    /** mm/vmalloc.c:184-238. The account of the window is lost exactly when pages run out in a region that
        touches a free extent. */
    method Alloc(size: nat, ghost w0: Ledger) returns (ptr: nat, merged: bool, ghost l: Layout)
      requires Valid() && w0 == State() && size < TWO64 && (size != 0 ==> space.next + TotalFor(size) < TWO64)
      requires size != 0 && Find(space.Space(), space.next, TotalFor(size)).va != 0 ==>
                 NodesLast(w0, PagesFor(size), vmm.areas.vmas.Length)
      modifies this, space, space.blocks, vmm, vmm.areas, vmm.areas.tree, vmm.areas.tree.pool, vmm.areas.vmas
      modifies vmm.mmu`tabs, vmm.mmu.mem, vmm.mmu.pmm`free, vmm.mmu.pmm.bitmap
      ensures merged <==> ptr == 0 && size != 0
                          && WouldMerge(old(space.Space()), old(space.next), old(space.Room()), TotalFor(size))
      ensures if merged then Lost() else Valid()
      ensures ptr == 0 ==> Restored(w0)
      ensures size == 0 || Find(old(space.Space()), old(space.next), TotalFor(size)).va == 0 ==>
                ptr == 0 && State() == w0 && live == old(live)
      ensures ptr != 0 ==> 0xFFFF_FF80_8000_0000 <= l.base && l.base + TotalFor(size) <= 0xFFFF_FF80_C000_0000
      ensures ptr != 0 ==> ptr == l.base + 4096 && Laid(w0, PagesFor(size), l)
      ensures ptr != 0 ==> Stands(PagesFor(size), l) && Guarded(PagesFor(size), l)
      ensures ptr != 0 ==> live == [Extent(l.base, TotalFor(size))] + old(live)
    {
      ptr, merged, l := 0, false, Layout(0, {}, Vma(0, 0, 0, 0), [], Vma(0, 0, 0, 0));
      if size != 0 {
        TotalCoversIff(size);
        var pages, total := PagesFor(size), Total64(size);
        ptr, merged, l := Build(pages, total, w0);
        if ptr != 0 { LaidGuarded(w0, pages, l); }
      }
    }

    /** Whatever else was allocated before is kept, and shares nothing with the new region. */
    lemma AllocKeepsOthers(w0: Ledger, pages: nat, l: Layout, all: set<Vma>)
      requires vmm.Valid() && Owns(vmm.mmu.Base(), w0, all) && (Restored(w0) || Laid(w0, pages, l))
      ensures Owns(vmm.mmu.Base(), State(), all)
      ensures Laid(w0, pages, l) ==> Stands(pages, l) && Foreign(l.mine + {l.h}, all)
    {
      if Restored(w0) { GrewKeeps(vmm.mmu.Base(), w0, State(), all); }
      if Laid(w0, pages, l) {
        MineOwns(vmm.mmu.Base(), w0, State(), l.mine + {l.h});
        MineKeeps(vmm.mmu.Base(), w0, State(), l.mine + {l.h}, all);
      }
    }

    /** The region is there, whatever was allocated or freed since. */
    ghost predicate Stands(pages: nat, l: Layout)
      reads vmm, vmm.areas, vmm.areas.tree, vmm.areas.tree.pool, vmm.areas.vmas
      reads vmm.mmu, vmm.mmu.mem, vmm.mmu.pmm, vmm.mmu.pmm.bitmap
    {
      && vmm.Valid() && Owns(vmm.mmu.Base(), State(), l.mine + {l.h})
      && Filled(l.mine, l.g, l.ds, l.base, pages) && Closing(l.h, l.base, pages)
    }

    /** With TTBR1 set, every address of the region outside holes is mapped as normal memory, never
        executable by the kernel, and writable exactly in the data: not in the page before it, nor in the
        page behind it. */
    ghost predicate Guarded(pages: nat, l: Layout)
      reads vmm, vmm.mmu, vmm.mmu.mem
    {
      vmm.ttbr1 != 0 ==>
        forall a: nat :: l.base <= a < l.base + (pages + 2) * 4096 && a / 4096 !in vmm.holes ==>
          var e := Walk(vmm.mmu.mem[..], SpotOf(vmm.ttbr1, a));
          && Bit(e, 0) && e / 4 % 8 == 2 && Bit(e, 53)
          && (!Bit(e, 7) <==> l.base + 4096 <= a < l.base + 4096 + pages * 4096)
    }

    /** A region that stands is guarded, whatever was mapped since. */
    lemma StandsGuarded(pages: nat, l: Layout)
      requires Stands(pages, l)
      ensures Guarded(pages, l)
    {
      hide Walk, Bit, Owns, Filled, Closing, Mmu.Valid;
      StateSound();
      if vmm.ttbr1 != 0 {
        forall a: nat | l.base <= a < l.base + (pages + 2) * 4096 && a / 4096 !in vmm.holes
          ensures var e := Walk(vmm.mmu.mem[..], SpotOf(vmm.ttbr1, a));
            && Bit(e, 0) && e / 4 % 8 == 2 && Bit(e, 53)
            && (!Bit(e, 7) <==> l.base + 4096 <= a < l.base + 4096 + pages * 4096)
        {
          var k := RegionArea(vmm.mmu.Base(), State(), pages, l, a);
          SpotOfPage(vmm.ttbr1, a);
          AccessAgrees(vmm.mmu.mem[..], vmm.mmu.tabs, vmm.ttbr1, State().vs, vmm.holes, vmm.boot, k, a / PAGE);
        }
      }
    }

    lemma LaidGuarded(w0: Ledger, pages: nat, l: Layout)
      requires Laid(w0, pages, l)
      ensures Stands(pages, l) && Guarded(pages, l)
    {
      hide Vmm.Valid, Mine, Owns, Filled, Closing;
      MineOwns(vmm.mmu.Base(), w0, State(), l.mine + {l.h});
      StandsGuarded(pages, l);
    }

    lemma WindowFewer(vs0: seq<Vma>, vs: seq<Vma>, all: set<Vma>)
      requires Window(vs) && Added(vs0, vs, all)
      ensures Window(vs0)
    {
      FewerClear(vs0, vs, all, space.Space(), space.next);
    }

    /** mm/vmalloc.c:250-266: data, first guard, second guard. */
    method DropAll(ptr: nat, pages: nat, ghost w0: Ledger, ghost l: Layout)
      requires Laid(w0, pages, l) && ptr == l.base + PAGE
      modifies vmm, vmm.areas, vmm.areas.tree, vmm.areas.tree.pool, vmm.mmu.mem, vmm.mmu.pmm`free, vmm.mmu.pmm.bitmap
      ensures Holding(w0, {}, {})
    {
      hide Vmm.Valid, Mine, Frame;
      ghost var ds, all := l.ds + [l.h], l.mine + {l.h};
      RestGrow(l.mine, l.g, l.ds, l.h);
      RowGrow(l.ds, ptr, l.h);
      ghost var mine := DropRow(ptr, pages, l.g, ds, w0, all);
      LastTwo(mine, l.g, ds);
      DropPage(ptr - PAGE, l.g, w0, mine);
      DropPage(ptr + pages * PAGE, l.h, w0, mine - {l.g});
      assert mine - {l.g} - {l.h} == {};
    }

    /** Exactly the region's areas and frames go. */
    method Strip(ptr: nat, pages: nat, ghost w: Ledger, ghost w0: Ledger, ghost l: Layout)
      requires Valid() && w == State() && Stands(pages, l) && ptr == l.base + PAGE
      requires w0 == Cleared(vmm.mmu.Base(), w, l.mine + {l.h})
      modifies vmm, vmm.areas, vmm.areas.tree, vmm.areas.tree.pool, vmm.mmu.mem, vmm.mmu.pmm`free, vmm.mmu.pmm.bitmap
      ensures Valid() && State() == w0
    {
      hide Vmm.Valid, FreeSpace.Valid, Owned, Filled, Closing, Accounted, FreeClear, NoTouch, Cleared, Frames;
      ghost var base, all := vmm.mmu.Base(), l.mine + {l.h};
      StateSound();
      ClearedMine(base, w, all);
      WindowFewer(w0.vs, w.vs, all);
      DropAll(ptr, pages, w0, l);
      ClearedExact(base, w, all, State());
    }

    /** mm/vmalloc.c:244-268. */
    method FreeRegion(ptr: nat, pages: nat, ghost w: Ledger, ghost w0: Ledger, ghost l: Layout, ghost k: nat)
      returns (merged: bool)
      requires Valid() && w == State() && Stands(pages, l) && ptr == l.base + PAGE
      requires w0 == Cleared(vmm.mmu.Base(), w, l.mine + {l.h})
      requires k < |live| && live[k] == Extent(l.base, (pages + 2) * PAGE)
      modifies this, space, space.blocks
      modifies vmm, vmm.areas, vmm.areas.tree, vmm.areas.tree.pool, vmm.mmu.mem, vmm.mmu.pmm`free, vmm.mmu.pmm.bitmap
      ensures vmm.Valid() && State() == w0 && if merged then Lost() else Valid()
      ensures merged <==> old(space.Room()) && TouchesAny(old(live)[k], old(space.Space()))
      ensures live == if old(space.Room()) then old(live)[..k] + old(live)[k + 1..] else old(live)
    {
      hide Vmm.Valid, FreeSpace.Valid, Owned, Owns, Filled, Closing, Accounted, FreeClear, NoTouch, TouchesAny,
        ClearPages, Ordered, Cleared, Frames;
      var total := (pages + 2) * PAGE;
      StateSound();
      ClearedMine(vmm.mmu.Base(), w, l.mine + {l.h});
      LaidRegion(w0.vs, w.vs, l, pages, total);
      LiveInWindow(space.Space(), live, space.next, k);
      Strip(ptr, pages, w, w0, l);
      merged := GiveBack(ptr - PAGE, total, w0.vs, k);
    }

    /** mm/vmalloc.c:240-269: in whatever order regions are freed, exactly this region's areas and frames go. */
    method Free(ptr: nat, size: nat, ghost w: Ledger, ghost l: Layout, ghost k: nat) returns (merged: bool)
      requires Valid() && w == State() && size < TWO64
      requires ptr != 0 && size != 0 ==> Stands(PagesFor(size), l) && ptr == l.base + PAGE
                                         && k < |live| && live[k] == Extent(l.base, TotalFor(size))
      modifies this, space, space.blocks
      modifies vmm, vmm.areas, vmm.areas.tree, vmm.areas.tree.pool, vmm.mmu.mem, vmm.mmu.pmm`free, vmm.mmu.pmm.bitmap
      ensures vmm.Valid() && if merged then Lost() else Valid()
      ensures State() == if ptr == 0 || size == 0 then w else Cleared(vmm.mmu.Base(), w, l.mine + {l.h})
      ensures merged <==> ptr != 0 && size != 0 && old(space.Room()) && TouchesAny(old(live)[k], old(space.Space()))
    {
      hide Vmm.Valid, FreeSpace.Valid, Owns, Filled, Closing, Accounted, FreeClear, NoTouch, TouchesAny, Cleared;
      merged := false;
      if ptr != 0 && size != 0 {
        var pages := PagesFor(size);
        merged := FreeRegion(ptr, pages, w, Cleared(vmm.mmu.Base(), w, l.mine + {l.h}), l, k);
      }
    }
  }

  /** With this block gone to the front, the merge takes both blocks off the list and the account with them. */
  lemma {:induction false} MergedLost(fs: seq<Extent>, live: seq<Extent>, next: nat, i: nat, j: nat, gs: seq<Extent>)
    requires Accounted(fs, live, next) && MergedAt(fs, i, j, gs) && Sizes(fs)
    ensures !Accounted(gs, live, next)
  {
    MergeLoses(fs, live, next, i, j);
  }

  /** Giving a region of this size back once it was found merges blocks. */
  ghost predicate WouldMerge(fs: seq<Extent>, next: nat, room: bool, size: nat)
  {
    var r := Find(fs, next, size);
    r.va != 0 && (room || |r.fs| < |fs|) && TouchesAny(Extent(r.va, size), r.fs)
  }

  /** The area an address of a region lies in, and what its attributes ask for. */
  lemma {:induction false} RegionArea(base: nat, w: Ledger, pages: nat, l: Layout, a: nat) returns (k: nat)
    requires Owns(base, w, l.mine + {l.h}) && Filled(l.mine, l.g, l.ds, l.base, pages) && Closing(l.h, l.base, pages)
    requires l.base <= a < l.base + (pages + 2) * PAGE && Ordered(w.vs)
    ensures k < |w.vs| && w.vs[k].va / PAGE <= a / PAGE < w.vs[k].va / PAGE + w.vs[k].size / PAGE
    ensures !Bit(w.vs[k].attrs, 3) && Bit(w.vs[k].attrs, 6)
    ensures Bit(w.vs[k].attrs, 1) <==> l.base + PAGE <= a < l.base + PAGE + pages * PAGE
  {
    RestGrow(l.mine, l.g, l.ds, l.h);
    RowGrow(l.ds, l.base + PAGE, l.h);
    var ds := l.ds + [l.h];
    var u := RowAt(l.g, ds, l.base, a);
    assert u in l.mine + {l.h};
    k :| 0 <= k < |w.vs| && w.vs[k] == u;
    assert Proper(w.vs[k]);
    AskedFor();
    InOnePage(u.va, a);
    if u != l.g {
      var i :| 0 <= i < |ds| && ds[i] == u;
      assert u.va == l.base + PAGE + i * PAGE;
      assert i < pages ==> u == l.ds[i];
    }
  }

  lemma {:induction false} AskedFor()
    ensures !Bit(GUARD_ATTRS, 1) && !Bit(GUARD_ATTRS, 3) && Bit(GUARD_ATTRS, 6)
    ensures Bit(DATA_ATTRS, 1) && !Bit(DATA_ATTRS, 3) && Bit(DATA_ATTRS, 6)
  {
    assert !Bit(0x40, 1) && !Bit(0x40, 3) && Bit(0x40, 6);
    assert Bit(0x53, 1) && !Bit(0x53, 3) && Bit(0x53, 6);
  }

  lemma {:induction false} InOnePage(va: nat, a: nat)
    requires va % PAGE == 0 && va <= a < va + PAGE
    ensures va / PAGE <= a / PAGE < va / PAGE + PAGE / PAGE
  {}

  lemma {:induction false} AreaThere(vs: seq<Vma>, v: Vma)
    requires Ordered(vs) && v in vs
    ensures HasArea(vs, v.va, v.size) && v.va % PAGE == 0 && v.size % PAGE == 0
  {
    var k :| 0 <= k < |vs| && vs[k] == v;
    assert Proper(vs[k]);
  }

  lemma {:induction false} SameArea(vs: seq<Vma>, v: Vma, k: nat)
    requires Ordered(vs) && v in vs && k < |vs| && vs[k].va == v.va
    ensures vs[k] == v
  {
    var j :| 0 <= j < |vs| && vs[j] == v;
    if j != k { StartsDiffer(vs, j, k); }
  }

  lemma {:induction false} LastTwo(mine: set<Vma>, g: Vma, ds: seq<Vma>)
    requires ds != [] && Rest(mine, g, ds, |ds| - 1) && g.va < ds[|ds| - 1].va
    ensures mine == {g, ds[|ds| - 1]} && g != ds[|ds| - 1]
  {}

  lemma {:induction false} LaidRegion(vs0: seq<Vma>, vs: seq<Vma>, l: Layout, pages: nat, total: nat)
    requires Added(vs0, vs, l.mine + {l.h}) && Filled(l.mine, l.g, l.ds, l.base, pages) && Closing(l.h, l.base, pages)
    requires total == (pages + 2) * PAGE
    ensures ClearPages(vs0, l.base, total)
  {
    RestGrow(l.mine, l.g, l.ds, l.h);
    RowGrow(l.ds, l.base + PAGE, l.h);
    RowClear(vs0, vs, l.mine + {l.h}, l.g, l.ds + [l.h], l.base);
    assert l.g in vs;
  }

  /** A region: where it starts, the first guard with the data, the first guard, the data, and the second guard. */
  datatype Layout = Layout(base: nat, mine: set<Vma>, g: Vma, ds: seq<Vma>, h: Vma)

  lemma {:induction false} LaidInside(mine: set<Vma>, g: Vma, ds: seq<Vma>, h: Vma, base: nat, pages: nat, total: nat)
    requires Filled(mine, g, ds, base, pages) && Closing(h, base, pages) && total == (pages + 2) * PAGE
    ensures Inside(mine + {h}, Extent(base, total))
  {}

  /** The second guard behind the data. */
  ghost predicate Closing(h: Vma, baseVa: nat, pages: nat)
  {
    h.va == baseVa + PAGE + pages * PAGE && h.size == PAGE && h.pa != 0 && h.pa % PAGE == 0 && h.attrs == GUARD_ATTRS
  }

  lemma {:induction false} FirstClear(vs: seq<Vma>, baseVa: nat, pages: nat)
    requires Region(vs, baseVa, pages)
    ensures AllClear(vs, baseVa, PAGE) && baseVa + PAGE < TWO64
  {
    forall i | 0 <= i < |vs| ensures !Intersects(vs[i], baseVa, PAGE) {
      assert !Intersects(vs[i], baseVa, (pages + 2) * PAGE);
    }
  }

  /** Room for a guard, `pages` pages and a guard, with no area in it. */
  ghost predicate Region(vs: seq<Vma>, baseVa: nat, pages: nat)
  {
    && baseVa % PAGE == 0 && KERNEL_FIRST * PAGE <= baseVa && baseVa + (pages + 2) * PAGE < TWO64
    && AllClear(vs, baseVa, (pages + 2) * PAGE)
  }

  ghost predicate Filled(mine: set<Vma>, g: Vma, ds: seq<Vma>, baseVa: nat, i: nat)
  {
    && |ds| == i && Rest(mine, g, ds, 0) && Row(ds, baseVa + PAGE)
    && g.va == baseVa && g.size == PAGE && g.pa != 0 && g.pa % PAGE == 0 && g.attrs == GUARD_ATTRS
    && forall j :: 0 <= j < i ==> ds[j].attrs == DATA_ATTRS
  }

  lemma {:induction false} FilledGrow(mine: set<Vma>, g: Vma, ds: seq<Vma>, baseVa: nat, i: nat, v: Vma)
    requires Filled(mine, g, ds, baseVa, i)
    requires v.va == baseVa + PAGE + i * PAGE && v.size == PAGE && v.pa != 0 && v.pa % PAGE == 0
    requires v.attrs == DATA_ATTRS
    ensures Filled(mine + {v}, g, ds + [v], baseVa, i + 1)
  {
    RestGrow(mine, g, ds, v);
    RowGrow(ds, baseVa + PAGE, v);
  }

  lemma {:induction false} NextClear(vs0: seq<Vma>, vs: seq<Vma>, mine: set<Vma>, g: Vma, ds: seq<Vma>, baseVa: nat,
                                     pages: nat, i: nat)
    requires Region(vs0, baseVa, pages) && Added(vs0, vs, mine) && Filled(mine, g, ds, baseVa, i) && i <= pages
    ensures var va := baseVa + PAGE + i * PAGE; va % PAGE == 0 && va + PAGE < TWO64 && AllClear(vs, va, PAGE)
  {
    StillClear(vs0, vs, mine, g, ds, baseVa, baseVa + PAGE, (pages + 2) * PAGE, baseVa + PAGE + i * PAGE);
  }

  /** An area's first address translates to its frame. */
  lemma {:induction false} AreaTranslates(vs: seq<Vma>, v: Vma)
    requires Ordered(vs) && v in vs
    ensures Translated(PageMapOf(vs), v.va) == v.pa
  {
    var k :| 0 <= k < |vs| && vs[k] == v;
    PageMapLookup(vs, k);
    AddressInBlock(v, v.va);
    AddFits(v.pa, 0);
    assert Proper(vs[k]);
  }

  lemma {:induction false} PagePasses(vs: seq<Vma>, v: Vma)
    requires Proper(v) && v.size == PAGE && AllClear(vs, v.va, PAGE)
    ensures MapCheck(vs, v.va, v.pa, PAGE) == 0
  {}
}
