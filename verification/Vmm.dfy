/**
 The virtual memory manager of mm/vmm.c: the VMA tree and the page tables side by side.
 `PageMapOf(areas.Vmas())` is the plain page map both of them stand for.
 */
module VmmClass {
  import opened Bits
  import opened PageTables
  import opened Descriptors
  import opened PageRanges
  import opened RedBlackTree
  import opened VmaMap
  import opened VmaTreeClass
  import opened MmuClass
  import opened AreaTables

  /** The refusals of `vmm_map`: nothing to map, misaligned, or overlapping some area. */
  function MapCheck(vs: seq<Vma>, va: nat, pa: nat, size: nat): int
  {
    if size == 0 then -1
    else if va % PAGE != 0 || pa % PAGE != 0 || size % PAGE != 0 then -2
    else if !AllClear(vs, va, size) then -3
    else 0
  }

  class Vmm {
    const areas: VmaTree
    const mmu: Mmu
    /** Frame of the kernel's top-level table, 0 while TTBR1 is not set. */
    const ttbr1: nat
    /** Pages of live areas whose entry could not be written because no page was left for a table. */
    ghost var holes: set<nat>
    /** Kernel pages translated from the start that no area has covered since, with their entries. */
    ghost var boot: map<nat, nat>

    ghost predicate Valid()
      reads this, areas, areas.tree, areas.tree.pool, areas.vmas, mmu, mmu.mem, mmu.pmm, mmu.pmm.bitmap
    {
      && areas.Valid() && mmu.Valid() && Separate()
      && View(mmu.mem[..], mmu.tabs, ttbr1, areas.Vmas(), holes, boot)
    }

    /** The two halves share no object. */
    ghost predicate Separate()
    {
      var a: set<object> := {areas, areas.tree, areas.tree.pool, areas.vmas};
      var b: set<object> := {this, mmu, mmu.mem, mmu.pmm, mmu.pmm.bitmap};
      a !! b
    }

    constructor (a: VmaTree, u: Mmu, root: nat)
      requires a.Valid() && a.Vmas() == [] && u.Valid() && (root != 0 ==> Pgd(root) in u.tabs)
      ensures Valid() && areas == a && mmu == u && ttbr1 == root && holes == {}
      ensures boot == Translations(u.mem[..], root)
    {
      areas, mmu, ttbr1, holes, boot := a, u, root, {}, Translations(u.mem[..], root);
      new;
      StartsValid();
    }

    lemma StartsValid()
      requires areas.Valid() && areas.Vmas() == [] && mmu.Valid() && (ttbr1 != 0 ==> Pgd(ttbr1) in mmu.tabs)
      requires holes == {} && boot == Translations(mmu.mem[..], ttbr1)
      ensures Valid()
    {
      hide View, Translations, Mmu.Valid;
      StartsAgreeing(mmu.mem[..], mmu.tabs, ttbr1, areas.Vmas(), boot);
    }

    /** The loop of mm/vmm.c:399-401 has done `j` pages; what it started from is given. */
    ghost predicate Mapping(w0: Tablework, first: nat, j: nat, pa: nat, attrs: nat, failed: set<nat>)
      reads this, mmu, mmu.mem, mmu.pmm, mmu.pmm.bitmap
    {
      mmu.Valid() && Pgd(ttbr1) in mmu.tabs && RunMapped(mmu.Base(), ttbr1, w0, Work(), first, j, pa, attrs, failed)
    }

    ghost function Work(): Tablework
      reads mmu, mmu.mem, mmu.pmm, mmu.pmm.bitmap
      requires mmu.Valid()
    {
      Tablework(mmu.mem[..], mmu.tabs, mmu.pmm.Map())
    }

    /** One round of mm/vmm.c:399-401. */
    method MapOne(first: nat, j: nat, pa: nat, attrs: nat, ghost w0: Tablework, ghost failed: set<nat>)
      returns (ghost ok: bool, ghost failed': set<nat>)
      requires Mapping(w0, first, j, pa, attrs, failed) && KERNEL_FIRST <= first && first + j < KERNEL_END
      modifies mmu`tabs, mmu.mem, mmu.pmm`free, mmu.pmm.bitmap
      ensures Mapping(w0, first, j + 1, pa, attrs, failed')
      ensures failed' == if ok then failed else failed + {first + j}
      ensures Tried(old(mmu.tabs), old(mmu.pmm.free), mmu.tabs, mmu.pmm.free, PageSpot(ttbr1, first + j), ok)
    {
      hide Mmu.Valid, RunMapped, TablesGrew, WalksChanged, Walk, IsValid, PteEntry, PageSpot, Tried, Add64;
      ghost var base, w := mmu.Base(), Work();
      var p, x := first + j, Add64(pa, j * PAGE);
      ok := TryPage(p, x, attrs, w);
      failed' := failed;
      if !ok {
        failed' := failed + {p};
      }
      RunMappedStep(base, ttbr1, w0, w, Work(), first, j, pa, attrs, failed, failed', ok, p, x);
    }

    /** One call of `mmu_map_page`. It never fails on a page that is translated already. */
    method TryPage(p: nat, pa: nat, attrs: nat, ghost w: Tablework) returns (ghost ok: bool)
      requires mmu.Valid() && Pgd(ttbr1) in mmu.tabs && w == Work()
      modifies mmu`tabs, mmu.mem, mmu.pmm`free, mmu.pmm.bitmap
      ensures mmu.Valid() && TablesGrew(mmu.Base(), w.pages, w.tabs, Work().pages, Work().tabs)
      ensures WalksChanged(w.m, Work().tabs, Work().m, PageSpot(ttbr1, p), ok, PteEntry(pa, attrs))
      ensures Tried(w.tabs, old(mmu.pmm.free), mmu.tabs, mmu.pmm.free, PageSpot(ttbr1, p), ok)
      ensures !ok ==> !IsValid(Walk(w.m, PageSpot(ttbr1, p)))
    {
      var va := p * PAGE;
      ghost var spot := SpotOf(ttbr1, va);
      if IsValid(Walk(w.m, spot)) { TranslatedHasPath(w.m, w.tabs, spot); }
      var r := mmu.MapPage(ttbr1, va, pa, attrs);
      ok := r == 0;
    }

    /** The loop of mm/vmm.c:399-401. The source drops the results; `failed` collects the pages without an
        entry. There are none if and only if the free pages are as many as the tables the run needs. */
    method MapRange(first: nat, n: nat, pa: nat, attrs: nat) returns (ghost failed: set<nat>)
      requires mmu.Valid() && Pgd(ttbr1) in mmu.tabs && KERNEL_FIRST <= first && first + n <= KERNEL_END
      modifies mmu`tabs, mmu.mem, mmu.pmm`free, mmu.pmm.bitmap
      ensures Mapping(old(Work()), first, n, pa, attrs, failed)
      ensures failed == {} <==> old(mmu.pmm.free) >= |Needed(old(mmu.tabs), ttbr1, first, n)|
    {
      ghost var w0, free0 := Work(), mmu.pmm.free;
      failed := {};
      RunMappedStart(mmu.Base(), ttbr1, w0, first, pa, attrs);
      var j := 0;
      while j < n
        invariant 0 <= j <= n && Mapping(w0, first, j, pa, attrs, failed)
        invariant Reckoned(w0.tabs, free0, mmu.tabs, mmu.pmm.free, ttbr1, first, j, failed == {})
      {
        ghost var w, free := Work(), mmu.pmm.free;
        ghost var ok, failed' := MapOne(first, j, pa, attrs, w0, failed);
        ReckonedStep(w.m, w0.tabs, free0, w.tabs, free, mmu.tabs, mmu.pmm.free, ttbr1, first, j, failed == {}, ok);
        failed := failed';
        j := j + 1;
      }
    }

    /** The loop of mm/vmm.c:434-436. */
    method UnmapRange(first: nat, n: nat)
      requires mmu.Valid() && Pgd(ttbr1) in mmu.tabs && KERNEL_FIRST <= first && first + n <= KERNEL_END
      modifies mmu.mem
      ensures mmu.Valid() && RangeInvalid(mmu.mem[..], ttbr1, first, n)
      ensures OthersSame(old(mmu.mem[..]), mmu.mem[..], mmu.tabs, ttbr1, first, n)
    {
      var j := 0;
      while j < n
        invariant 0 <= j <= n && mmu.Valid() && RangeInvalid(mmu.mem[..], ttbr1, first, j)
        invariant OthersSame(old(mmu.mem[..]), mmu.mem[..], mmu.tabs, ttbr1, first, j)
      {
        ghost var m := mmu.mem[..];
        var r := mmu.UnmapPage(ttbr1, (first + j) * PAGE);
        OthersStep(old(mmu.mem[..]), m, mmu.mem[..], mmu.tabs, mmu.tabs, ttbr1, first, j, r == 0, 0);
        InvalidStep(m, mmu.mem[..], mmu.tabs, ttbr1, first, j, r == 0);
        j := j + 1;
      }
    }

    /** The loop of mm/vmm.c:480-482. */
    method UpdateRange(first: nat, n: nat, attrs: nat)
      requires mmu.Valid() && Pgd(ttbr1) in mmu.tabs && KERNEL_FIRST <= first && first + n <= KERNEL_END
      modifies mmu.mem
      ensures mmu.Valid() && RangeUpdated(old(mmu.mem[..]), mmu.mem[..], ttbr1, first, n, attrs)
      ensures OthersSame(old(mmu.mem[..]), mmu.mem[..], mmu.tabs, ttbr1, first, n)
    {
      var j := 0;
      while j < n
        invariant 0 <= j <= n && mmu.Valid() && RangeUpdated(old(mmu.mem[..]), mmu.mem[..], ttbr1, first, j, attrs)
        invariant OthersSame(old(mmu.mem[..]), mmu.mem[..], mmu.tabs, ttbr1, first, j)
      {
        ghost var m := mmu.mem[..];
        var r := mmu.UpdatePageAttrs(ttbr1, (first + j) * PAGE, attrs);
        OthersStep(old(mmu.mem[..]), m, mmu.mem[..], mmu.tabs, mmu.tabs, ttbr1, first, j, r == 0,
                   PteEntry(Walk(m, PageSpot(ttbr1, first + j)), attrs));
        UpdatedStep(old(mmu.mem[..]), m, mmu.mem[..], mmu.tabs, ttbr1, first, j, attrs, r == 0);
        j := j + 1;
      }
    }

    /** mm/vmm.c:346-356. */
    method IsClear(va: nat, size: nat) returns (clear: bool)
      requires areas.Valid() && size > 0 && va + size < TWO64
      ensures clear <==> AllClear(areas.Vmas(), va, size)
    {
      NeighboursSuffice(areas.Vmas(), va, size);
      var pred := areas.FindLe(va);
      if pred != NIL && Overlaps(areas.vmas[pred], va, size) {
        return false;
      }
      var succ := areas.FindGe(va);
      if succ != NIL && Overlaps(areas.vmas[succ], va, size) {
        return false;
      }
      return true;
    }

    /** mm/vmm.c:336-356: the checks that come before anything is changed. */
    method CheckMap(va: nat, pa: nat, size: nat) returns (r: int)
      requires areas.Valid() && va + size < TWO64
      ensures r == MapCheck(areas.Vmas(), va, pa, size)
    {
      if size == 0 {
        return -1;
      }
      if va % PAGE != 0 || pa % PAGE != 0 || size % PAGE != 0 {
        return -2;
      }
      var clear := IsClear(va, size);
      r := if clear then 0 else -3;
    }

    /** mm/vmm.c:333-412. The result code is the source's; a page whose table could not be had joins `holes`. */
    method Map(va: nat, pa: nat, size: nat, attrs: nat) returns (r: int)
      requires Valid() && pa < TWO64 && va + size < TWO64
      requires ttbr1 != 0 ==> KERNEL_FIRST * PAGE <= va
      requires areas.freeList != [] || areas.initialized
      modifies this, areas, areas.tree, areas.tree.pool, areas.vmas, mmu`tabs, mmu.mem, mmu.pmm`free, mmu.pmm.bitmap
      ensures Valid()
      ensures r == if size == 0 then -1 else if va % 4096 != 0 || pa % 4096 != 0 || size % 4096 != 0 then -2
              else if !AllClear(old(areas.Vmas()), va, size) then -3 else if old(areas.freeList) == [] then -4 else 0
      ensures r != 0 ==> areas.Vmas() == old(areas.Vmas()) && mmu.mem[..] == old(mmu.mem[..])
      ensures r != 0 ==> holes == old(holes) && boot == old(boot)
      ensures r == 0 ==> AreaAdded(old(areas.Vmas()), old(boot), areas.Vmas(), boot, Vma(va, pa, size, attrs))
      ensures r == 0 ==> Entered(old(mmu.mem[..]), old(mmu.tabs), old(mmu.pmm.free), old(holes),
                                 mmu.mem[..], mmu.tabs, holes, ttbr1, Vma(va, pa, size, attrs))
      ensures TablesGrew(mmu.Base(), old(mmu.pmm.Map()), old(mmu.tabs), mmu.pmm.Map(), mmu.tabs)
    {
      r := CheckMap(va, pa, size);
      if r == 0 {
        var added := MapClear(Vma(va, pa, size, attrs));
        r := if added then 0 else -4;
      }
    }

    /** mm/vmm.c:358-411, once the checks have passed. */
    method MapClear(v: Vma) returns (added: bool)
      requires Valid() && Proper(v) && AllClear(areas.Vmas(), v.va, v.size)
      requires ttbr1 != 0 ==> KERNEL_FIRST * PAGE <= v.va
      requires areas.freeList != [] || areas.initialized
      modifies this, areas, areas.tree, areas.tree.pool, areas.vmas, mmu`tabs, mmu.mem, mmu.pmm`free, mmu.pmm.bitmap
      ensures Valid() && (added <==> old(areas.freeList) != [])
      ensures !added ==> areas.Vmas() == old(areas.Vmas()) && mmu.mem[..] == old(mmu.mem[..])
      ensures !added ==> holes == old(holes) && boot == old(boot)
      ensures added ==> AreaAdded(old(areas.Vmas()), old(boot), areas.Vmas(), boot, v)
      ensures added ==>
                Entered(old(mmu.mem[..]), old(mmu.tabs), old(mmu.pmm.free), old(holes),
                        mmu.mem[..], mmu.tabs, holes, ttbr1, v)
      ensures TablesGrew(mmu.Base(), old(mmu.pmm.Map()), old(mmu.tabs), mmu.pmm.Map(), mmu.tabs)
    {
      hide PageMapOf, Block;
      ghost var vs := areas.Vmas();
      added := AddArea(v);
      if added {
        MapTables(v, vs, areas.Vmas());
      }
    }

    /** mm/vmm.c:384-408: with TTBR1 set, enter the pages of the new area. */
    method MapTables(v: Vma, ghost vs: seq<Vma>, ghost us: seq<Vma>)
      requires mmu.Valid() && Ordered(us) && Proper(v)
      requires us == Inserted(vs, LastAtMost(vs, v.va) + 1, v) && PageMapOf(us) == PageMapOf(vs) + Block(v)
      requires (ttbr1 != 0 ==> KERNEL_FIRST * PAGE <= v.va) && View(mmu.mem[..], mmu.tabs, ttbr1, vs, holes, boot)
      modifies this, mmu`tabs, mmu.mem, mmu.pmm`free, mmu.pmm.bitmap
      ensures mmu.Valid() && View(mmu.mem[..], mmu.tabs, ttbr1, us, holes, boot) && boot == old(boot) - Block(v).Keys
      ensures Entered(old(mmu.mem[..]), old(mmu.tabs), old(mmu.pmm.free), old(holes),
                      mmu.mem[..], mmu.tabs, holes, ttbr1, v)
      ensures TablesGrew(mmu.Base(), old(mmu.pmm.Map()), old(mmu.tabs), mmu.pmm.Map(), mmu.tabs)
    {
      hide LastAtMost, Inserted, PageMapOf, Block;
      if ttbr1 != 0 {
        EnterPages(v, vs, us);
      } else {
        ViewAdded(mmu.mem[..], mmu.tabs, vs, LastAtMost(vs, v.va) + 1, v, holes, boot);
        boot := boot - Block(v).Keys;
      }
    }

    /** mm/vmm.c:358-382: take a node and hang it into the tree; fails when the pool is used up. */
    method AddArea(v: Vma) returns (added: bool)
      requires areas.Valid() && Proper(v) && AllClear(areas.Vmas(), v.va, v.size)
      requires areas.freeList != [] || areas.initialized
      modifies areas, areas.tree, areas.tree.pool, areas.vmas
      ensures areas.Valid() && (added <==> old(areas.freeList) != [])
      ensures !added ==> areas.Vmas() == old(areas.Vmas())
      ensures added ==> areas.Vmas() == Inserted(old(areas.Vmas()), LastAtMost(old(areas.Vmas()), v.va) + 1, v)
      ensures added ==> PageMapOf(areas.Vmas()) == PageMapOf(old(areas.Vmas())) + Block(v)
    {
      hide LastAtMost;
      ghost var vs := areas.Vmas();
      InsertedOrdered(vs, v);
      PageMapInserted(vs, LastAtMost(vs, v.va) + 1, v);
      var n := areas.AllocNode();
      added := n != NIL;
      if added {
        areas.InsertNode(n, v);
      }
    }

    /** mm/vmm.c:387-401: enter the pages of a new area in the tables. */
    method EnterPages(v: Vma, ghost vs: seq<Vma>, ghost us: seq<Vma>)
      requires mmu.Valid() && ttbr1 != 0 && Ordered(us) && Proper(v)
      requires us == Inserted(vs, LastAtMost(vs, v.va) + 1, v)
      requires KERNEL_FIRST * PAGE <= v.va && View(mmu.mem[..], mmu.tabs, ttbr1, vs, holes, boot)
      requires Pgd(ttbr1) in mmu.tabs
      modifies this, mmu`tabs, mmu.mem, mmu.pmm`free, mmu.pmm.bitmap
      ensures mmu.Valid() && View(mmu.mem[..], mmu.tabs, ttbr1, us, holes, boot) && boot == old(boot) - Block(v).Keys
      ensures Entered(old(mmu.mem[..]), old(mmu.tabs), old(mmu.pmm.free), old(holes),
                      mmu.mem[..], mmu.tabs, holes, ttbr1, v)
      ensures TablesGrew(mmu.Base(), old(mmu.pmm.Map()), old(mmu.tabs), mmu.pmm.Map(), mmu.tabs)
    {
      hide Mmu.Valid, View, RunMapped, Entered, TablesGrew, Inserted, Block, LastAtMost, PteAttrs, Needed;
      ghost var k, base, w, free := LastAtMost(vs, v.va) + 1, mmu.Base(), Work(), mmu.pmm.free;
      var first, n, a := v.va / PAGE, v.size / PAGE, PteAttrs(v.attrs);
      UpperHalfPages(v);
      ghost var failed := MapRange(first, n, v.pa, a);
      ghost var w' := Work();
      assert RunMapped(base, ttbr1, w, w', first, n, v.pa, a, failed);
      ViewEntered(base, w, free, w', ttbr1, vs, k, v, holes, failed, boot, first, n, a);
      holes, boot := holes + failed, boot - Block(v).Keys;
    }

    /** mm/vmm.c:417-430 and 450-463: the area that starts at `va` and has this size; `cur` is its node. */
    method FindArea(va: nat, size: nat) returns (r: int, cur: int, ghost k: nat)
      requires areas.Valid()
      ensures r == if size == 0 then -1 else if va % PAGE != 0 || size % PAGE != 0 then -2
                   else if HasArea(areas.Vmas(), va, size) then 0 else -3
      ensures r == 0 ==> k < |areas.Vmas()| && areas.Vmas()[k].va == va && areas.Vmas()[k].size == size
                         && cur == InOrder(areas.tree.tree)[k]
    {
      k, cur := 0, NIL;
      if size == 0 {
        return -1, cur, k;
      }
      if va % PAGE != 0 || size % PAGE != 0 {
        return -2, cur, k;
      }
      cur := areas.FindExact(va);
      if cur == NIL {
        return -3, cur, k;
      }
      ghost var vs := areas.Vmas();
      k :| k < |vs| && vs[k].va == va && InOrder(areas.tree.tree)[k] == cur;
      assert vs[k] == areas.vmas[cur];
      if areas.vmas[cur].size != size {
        OneStart(vs, k, va, size);
        return -3, cur, k;
      }
      return 0, cur, k;
    }

    /** mm/vmm.c:414-445. `k` is the position of the area that goes. */
    method Unmap(va: nat, size: nat) returns (r: int, ghost k: nat)
      requires Valid()
      modifies this`holes, areas, areas.tree, areas.tree.pool, mmu.mem
      ensures Valid()
      ensures r == if size == 0 then -1 else if va % PAGE != 0 || size % PAGE != 0 then -2
                   else if HasArea(old(areas.Vmas()), va, size) then 0 else -3
      ensures r != 0 ==> areas.Vmas() == old(areas.Vmas()) && mmu.mem[..] == old(mmu.mem[..]) && holes == old(holes)
      ensures r == 0 && ttbr1 != 0 ==>
                && RangeInvalid(mmu.mem[..], ttbr1, va / PAGE, size / PAGE)
                && OthersSame(old(mmu.mem[..]), mmu.mem[..], mmu.tabs, ttbr1, va / PAGE, size / PAGE)
      ensures r == 0 ==>
                var vs := old(areas.Vmas());
                && k < |vs| && vs[k].va == va && vs[k].size == size && areas.Vmas() == Removed(vs, k)
                && PageMapOf(areas.Vmas()) == PageMapOf(vs) - Block(vs[k]).Keys
                && holes == old(holes) - Block(vs[k]).Keys
    {
      hide InOrder, View, PageMapOf, VmaMap.Block;
      var cur;
      r, cur, k := FindArea(va, size);
      if r == 0 {
        ghost var vs := areas.Vmas();
        PageMapRemoved(vs, k);
        LeavePages(vs, k, va, size);
        areas.RemoveNode(cur, k);
      }
    }

    /** mm/vmm.c:432-438. */
    method LeavePages(ghost vs: seq<Vma>, ghost k: nat, va: nat, size: nat)
      requires mmu.Valid() && View(mmu.mem[..], mmu.tabs, ttbr1, vs, holes, boot) && Ordered(vs)
      requires k < |vs| && vs[k].va == va && vs[k].size == size
      modifies this`holes, mmu.mem
      ensures mmu.Valid() && View(mmu.mem[..], mmu.tabs, ttbr1, Removed(vs, k), holes, boot)
      ensures holes == old(holes) - Block(vs[k]).Keys
      ensures ttbr1 != 0 ==> RangeInvalid(mmu.mem[..], ttbr1, va / PAGE, size / PAGE)
      ensures ttbr1 != 0 ==> OthersSame(old(mmu.mem[..]), mmu.mem[..], mmu.tabs, ttbr1, va / PAGE, size / PAGE)
    {
      ghost var m := mmu.mem[..];
      if ttbr1 != 0 {
        UpperHalfPages(vs[k]);
        var first, n := va / PAGE, size / PAGE;
        UnmapRange(first, n);
      }
      ViewUnmapped(m, mmu.mem[..], mmu.tabs, ttbr1, vs, k, holes, boot);
      holes := holes - Block(vs[k]).Keys;
    }

    /** mm/vmm.c:447-488. */
    method Protect(va: nat, size: nat, attrs: nat) returns (r: int, ghost k: nat)
      requires Valid()
      modifies areas.vmas, mmu.mem
      ensures Valid()
      ensures r == if size == 0 then -1 else if va % PAGE != 0 || size % PAGE != 0 then -2
                   else if HasArea(old(areas.Vmas()), va, size) then 0 else -3
      ensures r != 0 ==> areas.Vmas() == old(areas.Vmas()) && mmu.mem[..] == old(mmu.mem[..])
      ensures r == 0 ==>
                var vs := old(areas.Vmas());
                && k < |vs| && vs[k].va == va && vs[k].size == size && areas.Vmas() == vs[k := vs[k].(attrs := attrs)]
                && PageMapOf(areas.Vmas()) == PageMapOf(vs)
      ensures r == 0 && ttbr1 != 0 ==>
                && RangeUpdated(old(mmu.mem[..]), mmu.mem[..], ttbr1, va / PAGE, size / PAGE, PteAttrs(attrs))
                && OthersSame(old(mmu.mem[..]), mmu.mem[..], mmu.tabs, ttbr1, va / PAGE, size / PAGE)
    {
      hide PageMapOf;
      var cur;
      r, cur, k := FindArea(va, size);
      if r == 0 {
        ghost var vs := areas.Vmas();
        PageMapAttrs(vs, k, attrs);
        areas.SetAttrs(cur, attrs, k);
        RecolorPages(vs, k, va, size, attrs);
      }
    }

    /** mm/vmm.c:466-484. */
    method RecolorPages(ghost vs: seq<Vma>, ghost k: nat, va: nat, size: nat, attrs: nat)
      requires mmu.Valid() && View(mmu.mem[..], mmu.tabs, ttbr1, vs, holes, boot) && Ordered(vs)
      requires k < |vs| && vs[k].va == va && vs[k].size == size
      modifies mmu.mem
      ensures mmu.Valid() && View(mmu.mem[..], mmu.tabs, ttbr1, vs[k := vs[k].(attrs := attrs)], holes, boot)
      ensures ttbr1 != 0 ==> RangeUpdated(old(mmu.mem[..]), mmu.mem[..], ttbr1, va / PAGE, size / PAGE, PteAttrs(attrs))
      ensures ttbr1 != 0 ==> OthersSame(old(mmu.mem[..]), mmu.mem[..], mmu.tabs, ttbr1, va / PAGE, size / PAGE)
    {
      ghost var m := mmu.mem[..];
      PageMapAttrs(vs, k, attrs);
      if ttbr1 != 0 {
        UpperHalfPages(vs[k]);
        var first, n, a := va / PAGE, size / PAGE, PteAttrs(attrs);
        UpdateRange(first, n, a);
        ViewUpdated(m, mmu.mem[..], mmu.tabs, ttbr1, vs, k, holes, boot, attrs);
      }
    }

    /** mm/vmm.c:505-521 with a non-NULL `pa_out`: the page map's address, else `va` itself. Where the page is
        no hole, the tables translate `va` to the same frame. */
    method VirtToPhys(va: nat) returns (pa: nat)
      requires Valid()
      ensures pa == Translated(PageMapOf(areas.Vmas()), va) && Physical(areas.Vmas(), va, pa)
      ensures ttbr1 != 0 && va / PAGE in PageMapOf(areas.Vmas()) && va / PAGE !in holes ==>
                MapsTo(Walk(mmu.mem[..], SpotOf(ttbr1, va)), pa / PAGE)
    {
      hide PageMapOf, LastAtMost;
      ghost var vs := areas.Vmas();
      var n := areas.FindLe(va);
      LastAtMostCovers(vs, va);
      TranslatedIs(vs, va);
      if n != NIL && va >= areas.vmas[n].va && va < Add64(areas.vmas[n].va, areas.vmas[n].size) {
        pa := Add64(areas.vmas[n].pa, va - areas.vmas[n].va);
      } else {
        pa := va;
      }
      WalkAgrees(mmu.mem[..], mmu.tabs, ttbr1, vs, holes, boot, va);
    }
  }

  ghost predicate HasArea(vs: seq<Vma>, va: nat, size: nat)
  {
    exists k :: 0 <= k < |vs| && vs[k].va == va && vs[k].size == size
  }

  lemma {:induction false} OneStart(vs: seq<Vma>, k: nat, va: nat, size: nat)
    requires Ordered(vs) && k < |vs| && vs[k].va == va && vs[k].size != size
    ensures !HasArea(vs, va, size)
  {}
}
