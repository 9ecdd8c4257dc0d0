/**
 Areas and page tables as values: what it means that the tables translate exactly the pages of the
 areas, and how entering, leaving and rewriting a run of pages keeps it.
 */
module AreaTables {
  import opened Bits
  import PageMap
  import opened PageTables
  import opened Descriptors
  import opened PageRanges
  import opened VmaMap
  import opened MmuClass

  /** A page of the half of the address space TTBR1 translates. */
  predicate Upper(p: nat)
  {
    KERNEL_FIRST <= p < KERNEL_END
  }

  /** Every area lies in that half. */
  ghost predicate InUpperHalf(vs: seq<Vma>)
  {
    forall i :: 0 <= i < |vs| ==> KERNEL_FIRST * PAGE <= vs[i].va
  }

  /** What the entry `e` of page `p` is: the frame of the page map, or an entry from before the areas,
      or nothing valid. */
  ghost predicate Shows(e: nat, p: nat, pm: map<nat, nat>, holes: set<nat>, boot: map<nat, nat>)
  {
    if p in pm && p !in holes then MapsTo(e, pm[p])
    else if p in boot then e == boot[p]
    else !IsValid(e)
  }

  ghost predicate Mirrors(m: Memory, root: nat, pm: map<nat, nat>, holes: set<nat>, boot: map<nat, nat>)
  {
    forall p: nat :: Upper(p) ==> Shows(Walk(m, PageSpot(root, p)), p, pm, holes, boot)
  }

  /** The area's pages have the memory type and the permissions of its attributes, except in holes. */
  ghost predicate Granted(m: Memory, root: nat, v: Vma, holes: set<nat>)
  {
    forall p: nat :: p in Block(v) && p !in holes ==> Grants(Walk(m, PageSpot(root, p)), v.attrs)
  }

  ghost predicate AllGranted(m: Memory, root: nat, vs: seq<Vma>, holes: set<nat>)
  {
    forall i :: 0 <= i < |vs| ==> Granted(m, root, vs[i], holes)
  }

  /** Tree and tables agree: with TTBR1 set, the tables translate exactly the pages of the areas that are
      no holes, with their memory type and permissions, and those translated from the start that no area
      has covered since. */
  ghost predicate View(m: Memory, tabs: Tables, root: nat, vs: seq<Vma>, holes: set<nat>, boot: map<nat, nat>)
  {
    && holes <= PageMapOf(vs).Keys && boot.Keys !! PageMapOf(vs).Keys
    && (forall p :: p in boot ==> IsValid(boot[p]))
    && (root != 0 ==>
          && Pgd(root) in tabs && InUpperHalf(vs) && Mirrors(m, root, PageMapOf(vs), holes, boot)
          && AllGranted(m, root, vs, holes))
  }

  /** At all times, after whatever mapping, unmapping and protecting: a page of an area that is no hole is a
      valid page of the memory type of the area, writable exactly if the area is, and execute-never where
      the area is. */
  lemma {:induction false} AccessAgrees(m: Memory, tabs: Tables, root: nat, vs: seq<Vma>, holes: set<nat>,
                                        boot: map<nat, nat>, k: nat, p: nat)
    requires View(m, tabs, root, vs, holes, boot) && root != 0 && k < |vs| && p !in holes
    requires vs[k].va / PAGE <= p < vs[k].va / PAGE + vs[k].size / PAGE
    ensures var e, attrs := Walk(m, PageSpot(root, p)), vs[k].attrs;
      && Bit(e, 0) && Bit(e, 1) && e / 4 % 8 == (if Bit(attrs, 3) then 0 else 2) && Bit(e, 8) && Bit(e, 9) && Bit(e, 10)
      && (Bit(e, 7) <==> !Bit(attrs, 1)) && (Bit(attrs, 5) ==> Bit(e, 54)) && (Bit(attrs, 6) ==> Bit(e, 53))
  {
    hide Walk, Bit, Mirrors;
    assert Granted(m, root, vs[k], holes);
    assert p in Block(vs[k]);
    MemoryType(Walk(m, PageSpot(root, p)), vs[k].attrs);
  }

  lemma {:induction false} ValidEntry(e: nat, f: nat)
    requires MapsTo(e, f)
    ensures IsValid(e)
  {}

  /** A kernel page is translated if and only if an area covers it and it is no hole, or it was translated
      from the start and no area has covered it since. */
  lemma {:induction false} TranslatedIff(m: Memory, tabs: Tables, root: nat, vs: seq<Vma>, holes: set<nat>,
                                         boot: map<nat, nat>, p: nat)
    requires View(m, tabs, root, vs, holes, boot) && root != 0 && Upper(p)
    ensures IsValid(Walk(m, PageSpot(root, p))) <==> (p in PageMapOf(vs) && p !in holes) || p in boot
  {
    var e, pm := Walk(m, PageSpot(root, p)), PageMapOf(vs);
    assert Shows(e, p, pm, holes, boot);
    if p in pm && p !in holes { ValidEntry(e, pm[p]); }
  }

  /** The translations of kernel pages there are before any area. */
  ghost function Translations(m: Memory, root: nat): map<nat, nat>
  {
    map p: nat | KERNEL_FIRST <= p < KERNEL_END && IsValid(Walk(m, PageSpot(root, p))) :: Walk(m, PageSpot(root, p))
  }

  lemma {:induction false} StartsAgreeing(m: Memory, tabs: Tables, root: nat, vs: seq<Vma>, boot: map<nat, nat>)
    requires vs == [] && boot == Translations(m, root) && (root != 0 ==> Pgd(root) in tabs)
    ensures View(m, tabs, root, vs, {}, boot)
  {
    forall p: nat | Upper(p) ensures Shows(Walk(m, PageSpot(root, p)), p, map[], {}, boot) {}
  }

  // ------------------------------------------------------ a run of pages

  /** Memory, the tables in it, and the pages taken. */
  datatype Tablework = Tablework(m: Memory, tabs: Tables, pages: PageMap.Pages)

  /** Pages that failed were not translated and still are not. */
  ghost predicate FailedSame(m0: Memory, m: Memory, root: nat, failed: set<nat>)
  {
    forall p :: p in failed ==>
      Walk(m, PageSpot(root, p)) == Walk(m0, PageSpot(root, p)) && !IsValid(Walk(m0, PageSpot(root, p)))
  }

  ghost predicate AllOnRun(s: set<nat>, first: nat, n: nat)
  {
    forall p :: p in s ==> OnRun(p, first, n)
  }

  /** Starting from `w0`, the first `j` pages of a run were given entries, except those that failed. */
  ghost predicate RunMapped(base: nat, root: nat, w0: Tablework, w: Tablework, first: nat, j: nat, pa: nat, attrs: nat,
                            failed: set<nat>)
  {
    && Pgd(root) in w.tabs && TablesGrew(base, w0.pages, w0.tabs, w.pages, w.tabs)
    && RangeMapped(w.m, root, first, j, pa, attrs, failed)
    && OthersSame(w0.m, w.m, w.tabs, root, first, j)
    && FailedSame(w0.m, w.m, root, failed) && AllOnRun(failed, first, j)
  }

  lemma {:induction false} RunMappedStart(base: nat, root: nat, w: Tablework, first: nat, pa: nat, attrs: nat)
    requires Pgd(root) in w.tabs
    ensures RunMapped(base, root, w, w, first, 0, pa, attrs, {})
  {}

  /** The page behind the run walks as it did at the start. */
  lemma {:induction false} NextUntouched(m0: Memory, m: Memory, tabs: Tables, root: nat, first: nat, j: nat)
    requires OthersSame(m0, m, tabs, root, first, j) && Pgd(root) in tabs
    requires KERNEL_FIRST <= first && first + j < KERNEL_END
    ensures Walk(m, PageSpot(root, first + j)) == Walk(m0, PageSpot(root, first + j))
  {
    OffRun(root, first + j, first, j);
    assert PageSpot(root, first + j).root == root;
  }

  lemma {:induction false} FailedStep(m0: Memory, m: Memory, m': Memory, tabs: Tables, root: nat, first: nat, j: nat,
                                      failed: set<nat>, hit: bool, e: nat, p: nat)
    requires FailedSame(m0, m, root, failed) && AllOnRun(failed, first, j) && p in failed && Pgd(root) in tabs
    requires WalksChanged(m, tabs, m', PageSpot(root, first + j), hit, e)
    requires KERNEL_FIRST <= first && first + j < KERNEL_END
    ensures Walk(m', PageSpot(root, p)) == Walk(m0, PageSpot(root, p)) && !IsValid(Walk(m0, PageSpot(root, p)))
  {
    assert OnRun(p, first, j);
    EarlierKept(m, m', tabs, root, first, j, hit, e, p);
  }

  /** A page entered extends the run. */
  lemma {:induction false} RunMappedMore(base: nat, root: nat, w0: Tablework, w: Tablework, w': Tablework, first: nat,
                                         j: nat, pa: nat, attrs: nat, failed: set<nat>, p: nat, x: nat)
    requires RunMapped(base, root, w0, w, first, j, pa, attrs, failed) && KERNEL_FIRST <= first
    requires first + j < KERNEL_END
    requires TablesGrew(base, w.pages, w.tabs, w'.pages, w'.tabs) && p == first + j && x == Add64(pa, j * PAGE)
    requires WalksChanged(w.m, w'.tabs, w'.m, PageSpot(root, p), true, PteEntry(x, attrs))
    ensures RunMapped(base, root, w0, w', first, j + 1, pa, attrs, failed)
  {
    OthersStep(w0.m, w.m, w'.m, w.tabs, w'.tabs, root, first, j, true, PteEntry(x, attrs));
    MappedStep(w.m, w'.m, w'.tabs, root, first, j, pa, attrs, failed, true);
    TablesGrewTrans(base, w0.pages, w0.tabs, w.pages, w.tabs, w'.pages, w'.tabs);
    forall q | q in failed
      ensures Walk(w'.m, PageSpot(root, q)) == Walk(w0.m, PageSpot(root, q)) && !IsValid(Walk(w0.m, PageSpot(root, q)))
    {
      FailedStep(w0.m, w.m, w'.m, w'.tabs, root, first, j, failed, true, PteEntry(x, attrs), q);
    }
    forall q | q in failed ensures OnRun(q, first, j + 1) { assert OnRun(q, first, j); }
  }

  /** A page that could not be entered extends it as a failed one. */
  lemma {:induction false} RunMappedLess(base: nat, root: nat, w0: Tablework, w: Tablework, w': Tablework, first: nat,
                                         j: nat, pa: nat, attrs: nat, failed: set<nat>, p: nat, x: nat)
    requires RunMapped(base, root, w0, w, first, j, pa, attrs, failed) && KERNEL_FIRST <= first
    requires first + j < KERNEL_END
    requires TablesGrew(base, w.pages, w.tabs, w'.pages, w'.tabs) && p == first + j && x == Add64(pa, j * PAGE)
    requires WalksChanged(w.m, w'.tabs, w'.m, PageSpot(root, p), false, PteEntry(x, attrs))
    requires !IsValid(Walk(w.m, PageSpot(root, p)))
    ensures RunMapped(base, root, w0, w', first, j + 1, pa, attrs, failed + {p})
  {
    hide RangeMapped, OthersSame, FailedSame, AllOnRun, WalksChanged, Walk, PteEntry, Add64, PageSpot, IsValid;
    var e := PteEntry(x, attrs);
    OthersStep(w0.m, w.m, w'.m, w.tabs, w'.tabs, root, first, j, false, e);
    MappedStep(w.m, w'.m, w'.tabs, root, first, j, pa, attrs, failed, false);
    TablesGrewTrans(base, w0.pages, w0.tabs, w.pages, w.tabs, w'.pages, w'.tabs);
    FailedMore(w0.m, w.m, w'.m, w.tabs, w'.tabs, root, first, j, failed, e, p);
  }

  lemma {:induction false} FailedMore(m0: Memory, m: Memory, m': Memory, tabs: Tables, tabs': Tables, root: nat,
                                      first: nat, j: nat, failed: set<nat>, e: nat, p: nat)
    requires FailedSame(m0, m, root, failed) && AllOnRun(failed, first, j) && Pgd(root) in tabs && Pgd(root) in tabs'
    requires OthersSame(m0, m, tabs, root, first, j) && WalksChanged(m, tabs', m', PageSpot(root, p), false, e)
    requires p == first + j && !IsValid(Walk(m, PageSpot(root, p))) && KERNEL_FIRST <= first && p < KERNEL_END
    ensures FailedSame(m0, m', root, failed + {p}) && AllOnRun(failed + {p}, first, j + 1)
  {
    NextUntouched(m0, m, tabs, root, first, j);
    assert PageSpot(root, p).root == root;
    forall q | q in failed + {p}
      ensures Walk(m', PageSpot(root, q)) == Walk(m0, PageSpot(root, q)) && !IsValid(Walk(m0, PageSpot(root, q)))
    {
      if q in failed { FailedStep(m0, m, m', tabs', root, first, j, failed, false, e, q); }
    }
    forall q | q in failed + {p} ensures OnRun(q, first, j + 1) { assert q in failed ==> OnRun(q, first, j); }
  }

  lemma {:induction false} RunMappedStep(base: nat, root: nat, w0: Tablework, w: Tablework, w': Tablework, first: nat,
                                         j: nat, pa: nat, attrs: nat, failed: set<nat>, failed': set<nat>, ok: bool,
                                         p: nat, x: nat)
    requires RunMapped(base, root, w0, w, first, j, pa, attrs, failed) && KERNEL_FIRST <= first
    requires first + j < KERNEL_END
    requires TablesGrew(base, w.pages, w.tabs, w'.pages, w'.tabs) && p == first + j && x == Add64(pa, j * PAGE)
    requires WalksChanged(w.m, w'.tabs, w'.m, PageSpot(root, p), ok, PteEntry(x, attrs))
    requires (ok ==> failed' == failed) && (!ok ==> failed' == failed + {p} && !IsValid(Walk(w.m, PageSpot(root, p))))
    ensures RunMapped(base, root, w0, w', first, j + 1, pa, attrs, failed')
  {
    if ok {
      RunMappedMore(base, root, w0, w, w', first, j, pa, attrs, failed, p, x);
    } else {
      RunMappedLess(base, root, w0, w, w', first, j, pa, attrs, failed, p, x);
    }
  }

  // ------------------------------------------------- how many tables a run needs

  /** The tables missing for a run of pages, each counted once. */
  function Needed(tabs: Tables, root: nat, first: nat, n: nat): set<Name>
  {
    if n == 0 then {} else Needed(tabs, root, first, n - 1) + (Path(PageSpot(root, first + n - 1)) - tabs.Keys)
  }

  lemma {:induction false} NeededGrows(tabs: Tables, root: nat, first: nat, j: nat)
    ensures |Needed(tabs, root, first, j)| <= |Needed(tabs, root, first, j + 1)|
  {
    hide Path, PageSpot;
    var a, b := Needed(tabs, root, first, j), Needed(tabs, root, first, j + 1);
    SubsetSize(a, b);
  }

  lemma {:induction false} SubsetSize(a: set<Name>, b: set<Name>)
    requires a <= b
    ensures |a| <= |b|
  {
    assert b == a + (b - a);
  }

  /** After `j` pages without a failure, exactly the tables needed were made, from as many free pages. */
  ghost predicate Spent(tabs0: Tables, free0: nat, tabs: Tables, free: nat, root: nat, first: nat, j: nat)
  {
    && free == free0 - |Needed(tabs0, root, first, j)|
    && forall k :: k in tabs <==> k in tabs0 || k in Needed(tabs0, root, first, j)
  }

  lemma {:induction false} NextNeeds(m: Memory, tabs0: Tables, free0: nat, tabs: Tables, free: nat, root: nat,
                                     first: nat, j: nat)
    requires Spent(tabs0, free0, tabs, free, root, first, j) && TableTree(m, tabs)
    ensures |Needed(tabs0, root, first, j + 1)| ==
            |Needed(tabs0, root, first, j)| + Missing(tabs, PageSpot(root, first + j))
  {
    hide Path, PageSpot, Missing, TableTree;
    var a, p := Needed(tabs0, root, first, j), Path(PageSpot(root, first + j));
    MissingIsCount(m, tabs, PageSpot(root, first + j));
    NewOnes(a, p, tabs0.Keys, tabs.Keys);
  }

  lemma {:induction false} NewOnes(a: set<Name>, p: set<Name>, before: set<Name>, now: set<Name>)
    requires forall k :: k in now <==> k in before || k in a
    ensures |a + (p - before)| == |a| + |p - now|
  {
    assert a + (p - before) == a + (p - now);
    assert a * (p - now) == {};
  }

  lemma {:induction false} SpentMore(m: Memory, tabs0: Tables, free0: nat, tabs: Tables, free: nat, tabs': Tables,
                                     free': nat, root: nat, first: nat, j: nat)
    requires Spent(tabs0, free0, tabs, free, root, first, j) && TableTree(m, tabs)
    requires free' == free - Missing(tabs, PageSpot(root, first + j))
    requires PathAdded(tabs, tabs', PageSpot(root, first + j))
    ensures Spent(tabs0, free0, tabs', free', root, first, j + 1)
  {
    NextNeeds(m, tabs0, free0, tabs, free, root, first, j);
  }

  /** One attempt: it succeeds if and only if pages are free for the missing tables, and takes just these. */
  ghost predicate Tried(tabs: Tables, free: nat, tabs': Tables, free': nat, p: Spot, ok: bool)
  {
    && (ok <==> free >= Missing(tabs, p))
    && (ok ==> free' == free - Missing(tabs, p) && PathAdded(tabs, tabs', p))
  }

  /** After `j` pages: none failed and the tables needed were made, or there were too few free pages. */
  ghost predicate Reckoned(tabs0: Tables, free0: nat, tabs: Tables, free: nat, root: nat, first: nat, j: nat,
                           none: bool)
  {
    && (none ==> Spent(tabs0, free0, tabs, free, root, first, j))
    && (!none ==> free0 < |Needed(tabs0, root, first, j)|)
  }

  lemma {:induction false} ReckonedStep(m: Memory, tabs0: Tables, free0: nat, tabs: Tables, free: nat, tabs': Tables,
                                        free': nat, root: nat, first: nat, j: nat, none: bool, ok: bool)
    requires Reckoned(tabs0, free0, tabs, free, root, first, j, none) && TableTree(m, tabs)
    requires Tried(tabs, free, tabs', free', PageSpot(root, first + j), ok)
    ensures Reckoned(tabs0, free0, tabs', free', root, first, j + 1, none && ok)
  {
    if none {
      NextNeeds(m, tabs0, free0, tabs, free, root, first, j);
      if ok { SpentMore(m, tabs0, free0, tabs, free, tabs', free', root, first, j); }
    } else {
      NeededGrows(tabs0, root, first, j);
    }
  }

  // ---------------------------------------------------------- what keeps the view

  lemma {:induction false} OffRun(root: nat, p: nat, first: nat, n: nat)
    requires Upper(p) && KERNEL_FIRST <= first && first + n <= KERNEL_END && !OnRun(p, first, n)
    ensures forall p' :: OnRun(p', first, n) ==> PageSpot(root, p) != PageSpot(root, p')
  {
    forall p' | OnRun(p', first, n) ensures PageSpot(root, p) != PageSpot(root, p') {
      if PageSpot(root, p) == PageSpot(root, p') { PageSpotInjective(root, p, p'); }
    }
  }

  /** A kernel page off the run walks as before. */
  lemma {:induction false} OffRunSame(m: Memory, m': Memory, tabs: Tables, root: nat, first: nat, n: nat, p: nat)
    requires OthersSame(m, m', tabs, root, first, n) && Pgd(root) in tabs
    requires Upper(p) && KERNEL_FIRST <= first && first + n <= KERNEL_END && !OnRun(p, first, n)
    ensures Walk(m', PageSpot(root, p)) == Walk(m, PageSpot(root, p))
  {
    OffRun(root, p, first, n);
    assert PageSpot(root, p).root == root;
  }

  lemma {:induction false} UpperHalfPages(v: Vma)
    requires Proper(v) && KERNEL_FIRST * PAGE <= v.va
    ensures KERNEL_FIRST <= v.va / PAGE && v.va / PAGE + v.size / PAGE <= KERNEL_END
  {}

  lemma {:induction false} UpperHalfInserted(vs: seq<Vma>, k: nat, v: Vma)
    requires k <= |vs| && InUpperHalf(vs) && KERNEL_FIRST * PAGE <= v.va
    ensures InUpperHalf(Inserted(vs, k, v))
  {
    var w := Inserted(vs, k, v);
    forall i | 0 <= i < |w| ensures KERNEL_FIRST * PAGE <= w[i].va {
      assert w[i] == if i < k then vs[i] else if i == k then v else vs[i - 1];
    }
  }

  lemma {:induction false} UpperHalfRemoved(vs: seq<Vma>, k: nat)
    requires k < |vs| && InUpperHalf(vs)
    ensures InUpperHalf(Removed(vs, k))
  {
    var w := Removed(vs, k);
    forall i | 0 <= i < |w| ensures KERNEL_FIRST * PAGE <= w[i].va {
      assert w[i] == if i < k then vs[i] else vs[i + 1];
    }
  }

  /** The entry of one new page gives the area's frame. */
  lemma {:induction false} EntryGivesFrame(v: Vma, p: nat)
    requires Proper(v) && p in Block(v)
    ensures MapsTo(PteEntry(Add64(v.pa, (p - v.va / PAGE) * PAGE), PteAttrs(v.attrs)), Block(v)[p])
  {
    var x := Add64(v.pa, (p - v.va / PAGE) * PAGE);
    FrameOfSum(v, p);
    PteEntryMaps(x, v.attrs);
  }

  lemma {:induction false} FrameOfSum(v: Vma, p: nat)
    requires Proper(v) && p in Block(v)
    ensures Add64(v.pa, (p - v.va / PAGE) * PAGE) / PAGE == Block(v)[p]
  {
    var i := p - v.va / PAGE;
    WrapPages(v.pa / PAGE + i, 0);
    assert v.pa + i * PAGE == (v.pa / PAGE + i) * PAGE;
  }

  /** A block's pages are the run. */
  lemma {:induction false} BlockIsRun(v: Vma, p: nat)
    ensures p in Block(v) <==> OnRun(p, v.va / PAGE, v.size / PAGE)
  {}

  /** One page after a block was entered. */
  lemma {:induction false} ShowsMapped(m: Memory, m': Memory, tabs: Tables, root: nat, pm: map<nat, nat>, v: Vma,
                                       holes: set<nat>, failed: set<nat>, boot: map<nat, nat>, p: nat)
    requires Proper(v) && KERNEL_FIRST * PAGE <= v.va && pm.Keys !! Block(v).Keys && boot.Keys !! pm.Keys
    requires Mirrors(m, root, pm, holes, boot) && Pgd(root) in tabs && Upper(p)
    requires forall q :: q in boot ==> IsValid(boot[q])
    requires holes <= pm.Keys && AllOnRun(failed, v.va / PAGE, v.size / PAGE) && FailedSame(m, m', root, failed)
    requires RangeMapped(m', root, v.va / PAGE, v.size / PAGE, v.pa, PteAttrs(v.attrs), failed)
    requires OthersSame(m, m', tabs, root, v.va / PAGE, v.size / PAGE)
    ensures Shows(Walk(m', PageSpot(root, p)), p, pm + Block(v), holes + failed, boot - Block(v).Keys)
  {
    var first, n := v.va / PAGE, v.size / PAGE;
    UpperHalfPages(v);
    BlockIsRun(v, p);
    assert Shows(Walk(m, PageSpot(root, p)), p, pm, holes, boot);
    if p in failed {
      assert OnRun(p, first, n);
    } else if p in Block(v) {
      assert p !in holes;
      EntryGivesFrame(v, p);
    } else {
      OffRunSame(m, m', tabs, root, first, n, p);
    }
  }

  /** An area off the run keeps its permissions. */
  lemma {:induction false} GrantedKept(m: Memory, m': Memory, tabs: Tables, root: nat, v: Vma, u: Vma, holes: set<nat>,
                                       holes': set<nat>)
    requires OthersSame(m, m', tabs, root, v.va / PAGE, v.size / PAGE) && Pgd(root) in tabs
    requires Proper(u) && KERNEL_FIRST * PAGE <= u.va && Proper(v) && KERNEL_FIRST * PAGE <= v.va
    requires Block(u).Keys !! Block(v).Keys && Granted(m, root, u, holes)
    requires forall p :: p in Block(u) && p in holes ==> p in holes'
    ensures Granted(m', root, u, holes')
  {
    hide Walk, Grants;
    var first, n := v.va / PAGE, v.size / PAGE;
    UpperHalfPages(u);
    UpperHalfPages(v);
    forall p: nat | p in Block(u) && p !in holes' ensures Grants(Walk(m', PageSpot(root, p)), u.attrs) {
      BlockIsRun(u, p);
      BlockIsRun(v, p);
      OffRunSame(m, m', tabs, root, first, n, p);
    }
  }

  lemma {:induction false} GrantedNew(m: Memory, root: nat, v: Vma, failed: set<nat>, holes: set<nat>)
    requires RangeMapped(m, root, v.va / PAGE, v.size / PAGE, v.pa, PteAttrs(v.attrs), failed)
    ensures Granted(m, root, v, holes + failed)
  {
    hide Walk, Grants, PteAttrs, PteEntry;
    forall p: nat | p in Block(v) && p !in holes + failed ensures Grants(Walk(m, PageSpot(root, p)), v.attrs) {
      BlockIsRun(v, p);
      EntryGrants(Add64(v.pa, (p - v.va / PAGE) * PAGE), v.attrs);
    }
  }

  lemma {:induction false} GrantedAnew(m: Memory, m': Memory, root: nat, v: Vma, holes: set<nat>, attrs: nat)
    requires RangeUpdated(m, m', root, v.va / PAGE, v.size / PAGE, PteAttrs(attrs)) && Granted(m, root, v, holes)
    ensures Granted(m', root, v.(attrs := attrs), holes)
  {
    hide Walk, PteAttrs, PteEntry;
    forall p: nat | p in Block(v.(attrs := attrs)) && p !in holes
      ensures Grants(Walk(m', PageSpot(root, p)), attrs)
    {
      BlockIsRun(v, p);
      var was := Walk(m, PageSpot(root, p));
      assert p in Block(v) && Grants(was, v.attrs);
      EntryGrants(was, attrs);
    }
  }

  lemma {:induction false} ApartInOrder(vs: seq<Vma>, i: nat, j: nat)
    requires Ordered(vs) && i < |vs| && j < |vs| && i != j
    ensures Block(vs[i]).Keys !! Block(vs[j]).Keys && Proper(vs[i]) && Proper(vs[j])
  {
    if i < j { BlocksDisjoint(vs[i], vs[j]); } else { BlocksDisjoint(vs[j], vs[i]); }
  }

  lemma {:induction false} AllGrantedMapped(m: Memory, m': Memory, tabs: Tables, root: nat, vs: seq<Vma>, k: nat,
                                            v: Vma, holes: set<nat>, failed: set<nat>)
    requires AllGranted(m, root, vs, holes) && k <= |vs| && Ordered(Inserted(vs, k, v))
    requires InUpperHalf(Inserted(vs, k, v))
    requires RangeMapped(m', root, v.va / PAGE, v.size / PAGE, v.pa, PteAttrs(v.attrs), failed)
    requires OthersSame(m, m', tabs, root, v.va / PAGE, v.size / PAGE) && Pgd(root) in tabs
    ensures AllGranted(m', root, Inserted(vs, k, v), holes + failed)
  {
    hide Granted, RangeMapped, OthersSame, Block, Proper;
    var w := Inserted(vs, k, v);
    GrantedNew(m', root, v, failed, holes);
    forall i | 0 <= i < |w| ensures Granted(m', root, w[i], holes + failed) {
      assert w[i] == if i < k then vs[i] else if i == k then v else vs[i - 1];
      if i != k {
        ApartInOrder(w, i, k);
        GrantedKept(m, m', tabs, root, v, w[i], holes, holes + failed);
      }
    }
  }

  lemma {:induction false} AllGrantedUnmapped(m: Memory, m': Memory, tabs: Tables, root: nat, vs: seq<Vma>, k: nat,
                                              holes: set<nat>)
    requires AllGranted(m, root, vs, holes) && k < |vs| && Ordered(vs) && InUpperHalf(vs)
    requires OthersSame(m, m', tabs, root, vs[k].va / PAGE, vs[k].size / PAGE) && Pgd(root) in tabs
    ensures AllGranted(m', root, Removed(vs, k), holes - Block(vs[k]).Keys)
  {
    hide Granted, OthersSame, Block, Proper;
    var w, holes' := Removed(vs, k), holes - Block(vs[k]).Keys;
    forall i | 0 <= i < |w| ensures Granted(m', root, w[i], holes') {
      var j := if i < k then i else i + 1;
      assert w[i] == vs[j];
      ApartInOrder(vs, j, k);
      GrantedKept(m, m', tabs, root, vs[k], vs[j], holes, holes');
    }
  }

  lemma {:induction false} AllGrantedUpdated(m: Memory, m': Memory, tabs: Tables, root: nat, vs: seq<Vma>, k: nat,
                                             holes: set<nat>, attrs: nat)
    requires AllGranted(m, root, vs, holes) && k < |vs| && Ordered(vs) && InUpperHalf(vs)
    requires RangeUpdated(m, m', root, vs[k].va / PAGE, vs[k].size / PAGE, PteAttrs(attrs))
    requires OthersSame(m, m', tabs, root, vs[k].va / PAGE, vs[k].size / PAGE) && Pgd(root) in tabs
    ensures AllGranted(m', root, vs[k := vs[k].(attrs := attrs)], holes)
  {
    hide Granted, OthersSame, RangeUpdated, Block, Proper;
    GrantedAnew(m, m', root, vs[k], holes, attrs);
    forall i | 0 <= i < |vs| && i != k ensures Granted(m', root, vs[i], holes) {
      ApartInOrder(vs, i, k);
      GrantedKept(m, m', tabs, root, vs[k], vs[i], holes, holes);
    }
  }

  /** Entering the pages of a new area keeps the view, with the failed ones as holes. */
  lemma {:induction false} ViewMapped(base: nat, w: Tablework, w': Tablework, root: nat, vs: seq<Vma>, k: nat, v: Vma,
                                      holes: set<nat>, failed: set<nat>, boot: map<nat, nat>, first: nat, n: nat,
                                      a: nat)
    requires View(w.m, w.tabs, root, vs, holes, boot) && root != 0
    requires k <= |vs| && Ordered(Inserted(vs, k, v)) && Proper(v) && KERNEL_FIRST * PAGE <= v.va
    requires first == v.va / PAGE && n == v.size / PAGE && a == PteAttrs(v.attrs)
    requires RunMapped(base, root, w, w', first, n, v.pa, a, failed)
    ensures View(w'.m, w'.tabs, root, Inserted(vs, k, v), holes + failed, boot - Block(v).Keys)
    ensures failed !! holes
  {
    PageMapInserted(vs, k, v);
    UpperHalfInserted(vs, k, v);
    AllGrantedMapped(w.m, w'.m, w'.tabs, root, vs, k, v, holes, failed);
    var pm, b := PageMapOf(vs), Block(v);
    forall p | p in failed ensures p in b { BlockIsRun(v, p); }
    forall p: nat | Upper(p) ensures Shows(Walk(w'.m, PageSpot(root, p)), p, pm + b, holes + failed, boot - b.Keys) {
      ShowsMapped(w.m, w'.m, w'.tabs, root, pm, v, holes, failed, boot, p);
    }
  }

  /** The areas gained `v`, the page map its block, and the block is no longer from the start. */
  ghost predicate AreaAdded(vs: seq<Vma>, boot: map<nat, nat>, vs': seq<Vma>, boot': map<nat, nat>, v: Vma)
  {
    && vs' == Inserted(vs, LastAtMost(vs, v.va) + 1, v) && PageMapOf(vs') == PageMapOf(vs) + Block(v)
    && boot' == boot - Block(v).Keys
  }

  /** What entering a new area did: every page of it that is no hole has its entry, the holes and all other
      pages walk as before, and there are new holes if and only if pages were too few for the tables. */
  ghost predicate Entered(m: Memory, tabs: Tables, free: nat, holes: set<nat>, m': Memory, tabs': Tables,
                          holes': set<nat>, root: nat, v: Vma)
  {
    var first, n := v.va / PAGE, v.size / PAGE;
    && (root == 0 ==> m' == m && holes' == holes)
    && (root != 0 ==>
          && RangeMapped(m', root, first, n, v.pa, PteAttrs(v.attrs), holes')
             && OthersSame(m, m', tabs', root, first, n)
          && FailedSame(m, m', root, holes' - holes) && holes <= holes' && AllOnRun(holes' - holes, first, n)
          && (holes' == holes <==> free >= |Needed(tabs, root, first, n)|))
  }

  lemma {:induction false} RunEntered(base: nat, w: Tablework, free: nat, w': Tablework, root: nat, v: Vma,
                                      holes: set<nat>, failed: set<nat>, first: nat, n: nat, a: nat)
    requires root != 0 && first == v.va / PAGE && n == v.size / PAGE && a == PteAttrs(v.attrs)
    requires RunMapped(base, root, w, w', first, n, v.pa, a, failed) && failed !! holes
    requires failed == {} <==> free >= |Needed(w.tabs, root, first, n)|
    ensures Entered(w.m, w.tabs, free, holes, w'.m, w'.tabs, holes + failed, root, v)
  {
    assert holes + failed - holes == failed;
    assert holes + failed == holes <==> failed == {};
  }

  lemma {:induction false} ViewEntered(base: nat, w: Tablework, free: nat, w': Tablework, root: nat, vs: seq<Vma>,
                                       k: nat, v: Vma, holes: set<nat>, failed: set<nat>, boot: map<nat, nat>,
                                       first: nat, n: nat, a: nat)
    requires View(w.m, w.tabs, root, vs, holes, boot) && root != 0
    requires k <= |vs| && Ordered(Inserted(vs, k, v)) && Proper(v) && KERNEL_FIRST * PAGE <= v.va
    requires first == v.va / PAGE && n == v.size / PAGE && a == PteAttrs(v.attrs)
    requires RunMapped(base, root, w, w', first, n, v.pa, a, failed)
    requires failed == {} <==> free >= |Needed(w.tabs, root, first, n)|
    ensures View(w'.m, w'.tabs, root, Inserted(vs, k, v), holes + failed, boot - Block(v).Keys)
    ensures Entered(w.m, w.tabs, free, holes, w'.m, w'.tabs, holes + failed, root, v)
    ensures TablesGrew(base, w.pages, w.tabs, w'.pages, w'.tabs)
  {
    ViewMapped(base, w, w', root, vs, k, v, holes, failed, boot, first, n, a);
    RunEntered(base, w, free, w', root, v, holes, failed, first, n, a);
  }

  /** Without TTBR1 only the page map changes. */
  lemma {:induction false} ViewAdded(m: Memory, tabs: Tables, vs: seq<Vma>, k: nat, v: Vma, holes: set<nat>,
                                     boot: map<nat, nat>)
    requires View(m, tabs, 0, vs, holes, boot) && k <= |vs| && PageMapOf(Inserted(vs, k, v)) == PageMapOf(vs) + Block(v)
    ensures View(m, tabs, 0, Inserted(vs, k, v), holes, boot - Block(v).Keys)
  {}

  /** One page after a block was left. */
  lemma {:induction false} ShowsUnmapped(m: Memory, m': Memory, tabs: Tables, root: nat, pm: map<nat, nat>, v: Vma,
                                         holes: set<nat>, boot: map<nat, nat>, p: nat)
    requires Proper(v) && KERNEL_FIRST * PAGE <= v.va && Block(v).Keys <= pm.Keys && boot.Keys !! pm.Keys
    requires Mirrors(m, root, pm, holes, boot) && Pgd(root) in tabs && Upper(p)
    requires RangeInvalid(m', root, v.va / PAGE, v.size / PAGE)
    requires OthersSame(m, m', tabs, root, v.va / PAGE, v.size / PAGE)
    ensures Shows(Walk(m', PageSpot(root, p)), p, pm - Block(v).Keys, holes - Block(v).Keys, boot)
  {
    var first, n := v.va / PAGE, v.size / PAGE;
    UpperHalfPages(v);
    BlockIsRun(v, p);
    assert Shows(Walk(m, PageSpot(root, p)), p, pm, holes, boot);
    if p !in Block(v) { OffRunSame(m, m', tabs, root, first, n, p); }
  }

  /** Leaving the pages of an area keeps the view without it. */
  lemma {:induction false} ViewUnmapped(m: Memory, m': Memory, tabs: Tables, root: nat, vs: seq<Vma>, k: nat,
                                        holes: set<nat>, boot: map<nat, nat>)
    requires View(m, tabs, root, vs, holes, boot) && Ordered(vs) && k < |vs|
    requires root != 0 ==> OthersSame(m, m', tabs, root, vs[k].va / PAGE, vs[k].size / PAGE)
    requires root != 0 ==> RangeInvalid(m', root, vs[k].va / PAGE, vs[k].size / PAGE)
    ensures View(m', tabs, root, Removed(vs, k), holes - Block(vs[k]).Keys, boot)
  {
    var v, pm := vs[k], PageMapOf(vs);
    PageMapRemoved(vs, k);
    PageMapLookup(vs, k);
    if root != 0 {
      UpperHalfRemoved(vs, k);
      AllGrantedUnmapped(m, m', tabs, root, vs, k, holes);
      forall p: nat | Upper(p)
        ensures Shows(Walk(m', PageSpot(root, p)), p, pm - Block(v).Keys, holes - Block(v).Keys, boot)
      {
        ShowsUnmapped(m, m', tabs, root, pm, v, holes, boot, p);
      }
    }
  }

  /** One page after the attributes of a block were rewritten. */
  lemma {:induction false} ShowsUpdated(m: Memory, m': Memory, tabs: Tables, root: nat, pm: map<nat, nat>, v: Vma,
                                        holes: set<nat>, boot: map<nat, nat>, attrs: nat, p: nat)
    requires Proper(v) && KERNEL_FIRST * PAGE <= v.va && Block(v).Keys <= pm.Keys && boot.Keys !! pm.Keys
    requires Mirrors(m, root, pm, holes, boot) && Pgd(root) in tabs && Upper(p)
    requires RangeUpdated(m, m', root, v.va / PAGE, v.size / PAGE, PteAttrs(attrs))
    requires OthersSame(m, m', tabs, root, v.va / PAGE, v.size / PAGE)
    ensures Shows(Walk(m', PageSpot(root, p)), p, pm, holes, boot)
  {
    var first, n, e := v.va / PAGE, v.size / PAGE, Walk(m, PageSpot(root, p));
    UpperHalfPages(v);
    BlockIsRun(v, p);
    assert Shows(e, p, pm, holes, boot);
    if p !in Block(v) {
      OffRunSame(m, m', tabs, root, first, n, p);
    } else if p !in holes {
      ValidEntry(e, pm[p]);
      UpdateKeepsFrame(e, pm[p], attrs);
    }
  }

  /** Rewriting the attributes of an area's pages keeps the view. */
  lemma {:induction false} ViewUpdated(m: Memory, m': Memory, tabs: Tables, root: nat, vs: seq<Vma>, k: nat,
                                       holes: set<nat>, boot: map<nat, nat>, attrs: nat)
    requires View(m, tabs, root, vs, holes, boot) && Ordered(vs) && k < |vs| && root != 0
    requires OthersSame(m, m', tabs, root, vs[k].va / PAGE, vs[k].size / PAGE)
    requires RangeUpdated(m, m', root, vs[k].va / PAGE, vs[k].size / PAGE, PteAttrs(attrs))
    ensures View(m', tabs, root, vs[k := vs[k].(attrs := attrs)], holes, boot)
  {
    var v, pm, w := vs[k], PageMapOf(vs), vs[k := vs[k].(attrs := attrs)];
    PageMapAttrs(vs, k, attrs);
    PageMapLookup(vs, k);
    AllGrantedUpdated(m, m', tabs, root, vs, k, holes, attrs);
    assert forall i :: 0 <= i < |w| ==> w[i].va == vs[i].va;
    forall p: nat | Upper(p) ensures Shows(Walk(m', PageSpot(root, p)), p, pm, holes, boot) {
      ShowsUpdated(m, m', tabs, root, pm, v, holes, boot, attrs, p);
    }
  }

  // -------------------------------------------------------- translation

  /** Translation by a plain page map, identity where it has no page. */
  function Translated(pm: map<nat, nat>, va: nat): nat
  {
    if va / PAGE in pm then pm[va / PAGE] * PAGE + va % PAGE else va
  }

  lemma {:induction false} FrameOfTranslated(f: nat, r: nat)
    requires r < PAGE
    ensures (f * PAGE + r) / PAGE == f
  {}

  /** Pages of the map of upper-half areas lie in the upper half. */
  lemma {:induction false} PageMapUpper(vs: seq<Vma>, p: nat)
    requires Ordered(vs) && InUpperHalf(vs) && p in PageMapOf(vs)
    ensures Upper(p)
  {
    var k := PageMapCovered(vs, p);
    UpperHalfPages(vs[k]);
  }

  /** Inside the areas, walking the tables gives the frame that the areas give, except in holes. */
  lemma {:induction false} WalkAgrees(m: Memory, tabs: Tables, root: nat, vs: seq<Vma>, holes: set<nat>,
                                      boot: map<nat, nat>, va: nat)
    requires View(m, tabs, root, vs, holes, boot) && Ordered(vs)
    ensures root != 0 && va / PAGE in PageMapOf(vs) && va / PAGE !in holes ==>
              MapsTo(Walk(m, SpotOf(root, va)), Translated(PageMapOf(vs), va) / PAGE)
  {
    hide Walk;
    var pm, p := PageMapOf(vs), va / PAGE;
    SpotOfPage(root, va);
    if root != 0 && p in pm {
      PageMapUpper(vs, p);
      FrameOfTranslated(pm[p], va % PAGE);
      assert Shows(Walk(m, PageSpot(root, p)), p, pm, holes, boot);
    }
  }

  /** At all times, an address of an area that is in no hole translates to the same offset from the area's
      physical address, as far as 48 bits of address go. */
  lemma {:induction false} AddressAgrees(m: Memory, tabs: Tables, root: nat, vs: seq<Vma>, holes: set<nat>,
                                         boot: map<nat, nat>, k: nat, va: nat)
    requires View(m, tabs, root, vs, holes, boot) && Ordered(vs) && root != 0 && k < |vs| && va / PAGE !in holes
    requires vs[k].va <= va < vs[k].va + vs[k].size
    ensures var e := Walk(m, SpotOf(root, va));
      Bit(e, 0) && Bit(e, 1) &&
      e / 4096 % 0x10_0000_0000 * 4096 + va % 4096 == (vs[k].pa + (va - vs[k].va)) % 0x1_0000_0000_0000
  {
    hide Walk, Bit, View, OutFrame, SpotOf;
    FrameAgrees(m, tabs, root, vs, holes, boot, k, va / PAGE);
    SpotOfPage(root, va);
    OutFrameIsDivision(Walk(m, SpotOf(root, va)));
    SameOffset(vs[k].pa, vs[k].va, va);
  }

  lemma {:induction false} FrameAgrees(m: Memory, tabs: Tables, root: nat, vs: seq<Vma>, holes: set<nat>,
                                       boot: map<nat, nat>, k: nat, p: nat)
    requires View(m, tabs, root, vs, holes, boot) && Ordered(vs) && root != 0 && k < |vs| && p !in holes
    requires p in Block(vs[k])
    ensures MapsTo(Walk(m, PageSpot(root, p)), FrameAt(vs[k], p))
  {
    hide Walk, MapsTo, FrameAt, PageSpot;
    PageMapLookup(vs, k);
    PageMapUpper(vs, p);
    assert Shows(Walk(m, PageSpot(root, p)), p, PageMapOf(vs), holes, boot);
  }

  lemma {:induction false} SameOffset(pa: nat, start: nat, va: nat)
    requires pa % PAGE == 0 && start % PAGE == 0 && start <= va
    ensures (pa / PAGE + (va / PAGE - start / PAGE)) % 0x10_0000_0000_0000 % 0x10_0000_0000 * PAGE + va % PAGE ==
            (pa + (va - start)) % 0x1_0000_0000_0000
  {
    var f := pa / PAGE + (va / PAGE - start / PAGE);
    var g, k := f % 0x10_0000_0000_0000, f / 0x10_0000_0000;
    DivUnique(f, 0x10_0000_0000, 0x1_0000 * (f / 0x10_0000_0000_0000) + g / 0x10_0000_0000, g % 0x10_0000_0000);
    assert pa + (va - start) == f * PAGE + va % PAGE;
    DivUnique(f * PAGE + va % PAGE, 0x1_0000_0000_0000, k, f % 0x10_0000_0000 * PAGE + va % PAGE);
  }

  predicate Covers(v: Vma, va: nat)
  {
    v.va <= va < v.va + v.size
  }

  /** `pa` lies in the area that covers `va` as far from its physical start as `va` from its start; where no area
      does it is `va` itself. */
  ghost predicate Physical(vs: seq<Vma>, va: nat, pa: nat)
  {
    && (forall k :: 0 <= k < |vs| && Covers(vs[k], va) ==>
          pa == (vs[k].pa + (va - vs[k].va)) % 0x1_0000_0000_0000_0000)
    && ((forall k :: 0 <= k < |vs| ==> !Covers(vs[k], va)) ==> pa == va)
  }

  lemma {:induction false} TranslatedIs(vs: seq<Vma>, va: nat)
    requires Ordered(vs)
    ensures Physical(vs, va, Translated(PageMapOf(vs), va))
  {
    hide PageMapOf;
    forall k | 0 <= k < |vs| && Covers(vs[k], va)
      ensures Translated(PageMapOf(vs), va) == (vs[k].pa + (va - vs[k].va)) % 0x1_0000_0000_0000_0000
    {
      CoveredTranslates(vs, k, va);
    }
    if va / PAGE in PageMapOf(vs) {
      var k := PageMapCovered(vs, va / PAGE);
      assert Proper(vs[k]) && Covers(vs[k], va);
    }
  }

  /** Only the last area at or below `va` can cover it. */
  lemma {:induction false} LastAtMostCovers(vs: seq<Vma>, va: nat)
    requires Ordered(vs)
    ensures var k := LastAtMost(vs, va);
      Translated(PageMapOf(vs), va) ==
      if k >= 0 && vs[k].va <= va < vs[k].va + vs[k].size then Add64(vs[k].pa, va - vs[k].va) else va
    ensures LastAtMost(vs, va) >= 0 ==> Proper(vs[LastAtMost(vs, va)])
  {
    hide LastAtMost;
    LastAtMostSplits(vs, va);
    var k := LastAtMost(vs, va);
    if k >= 0 && vs[k].va <= va < vs[k].va + vs[k].size {
      CoveredTranslates(vs, k, va);
    } else {
      UncoveredStays(vs, k, va);
    }
  }

  lemma {:induction false} CoveredTranslates(vs: seq<Vma>, k: nat, va: nat)
    requires Ordered(vs) && k < |vs| && vs[k].va <= va < vs[k].va + vs[k].size
    ensures Translated(PageMapOf(vs), va) == Add64(vs[k].pa, va - vs[k].va)
  {
    AddressInBlock(vs[k], va);
    PageMapLookup(vs, k);
  }

  lemma {:induction false} UncoveredStays(vs: seq<Vma>, k: int, va: nat)
    requires Ordered(vs) && -1 <= k < |vs| && (k >= 0 ==> !(vs[k].va <= va < vs[k].va + vs[k].size))
    requires (forall i :: 0 <= i <= k ==> vs[i].va <= va) && (forall i :: k < i < |vs| ==> va < vs[i].va)
    ensures Translated(PageMapOf(vs), va) == va
  {
    if va / PAGE in PageMapOf(vs) {
      var j := PageMapCovered(vs, va / PAGE);
      BlockCoversAddress(vs[j], va);
      CoveredByLast(vs, j, k, va);
    }
  }

  lemma {:induction false} CoveredByLast(vs: seq<Vma>, j: nat, k: int, va: nat)
    requires Ordered(vs) && j < |vs| && -1 <= k < |vs| && vs[j].va <= va < vs[j].va + vs[j].size
    requires (forall i :: 0 <= i <= k ==> vs[i].va <= va) && (forall i :: k < i < |vs| ==> va < vs[i].va)
    ensures j == k
  {
    if k >= 0 { assert forall i :: 0 <= i < k ==> vs[i].va + vs[i].size <= vs[k].va; }
  }

  lemma {:induction false} BlockCoversAddress(v: Vma, va: nat)
    requires Proper(v) && va / PAGE in Block(v)
    ensures v.va <= va < v.va + v.size
  {}

  // --------------------------------------------------------- attributes

  /** A page mapped with `attrs` has the memory type asked for, is inner shareable and accessed, read-only
      and execute-never as asked; bits 53 and 54 of the physical address, which no real address has, count
      as execute-never too. */
  lemma {:induction false} MappedBits(m: Memory, root: nat, first: nat, n: nat, pa: nat, attrs: nat, failed: set<nat>,
                                      p: nat)
    requires RangeMapped(m, root, first, n, pa, PteAttrs(attrs), failed) && OnRun(p, first, n) && p !in failed
    ensures var e, x := Walk(m, PageSpot(root, p)), Add64(pa, (p - first) * PAGE);
      && e / 4 % 8 == (if Bit(attrs, 3) then 0 else 2) && Bit(e, 0) && Bit(e, 1) && Bit(e, 8) && Bit(e, 9) && Bit(e, 10)
      && (Bit(e, 7) <==> !Bit(attrs, 1))
      && (Bit(e, 53) <==> Bit(x, 53) || Bit(attrs, 6)) && (Bit(e, 54) <==> Bit(x, 54) || Bit(attrs, 5))
  {
    hide PteAttrs, PteEntry, Walk, Bit;
    var x := Add64(pa, (p - first) * PAGE);
    EntryGrants(x, attrs);
    MemoryType(PteEntry(x, PteAttrs(attrs)), attrs);
  }

  /** A mapped page protected with `attrs`, for the first time or again, has the memory type asked for, is
      inner shareable and accessed, and read-only as asked, but execute-never if it was so before or the
      protection asks for it. So the protection is the one asked for if and only if the entry was not
      execute-never without the protection asking for it. */
  lemma {:induction false} ProtectHonouredIff(m: Memory, m': Memory, root: nat, first: nat, n: nat, attrs: nat, p: nat)
    requires RangeUpdated(m, m', root, first, n, PteAttrs(attrs)) && OnRun(p, first, n)
    requires IsValid(Walk(m, PageSpot(root, p)))
    ensures var was, e := Walk(m, PageSpot(root, p)), Walk(m', PageSpot(root, p));
      && e / 4 % 8 == (if Bit(attrs, 3) then 0 else 2) && Bit(e, 0) && Bit(e, 1) && Bit(e, 8) && Bit(e, 9) && Bit(e, 10)
      && (Bit(e, 7) <==> !Bit(attrs, 1))
      && ((Bit(e, 53) <==> Bit(attrs, 6)) <==> (Bit(was, 53) ==> Bit(attrs, 6)))
      && ((Bit(e, 54) <==> Bit(attrs, 5)) <==> (Bit(was, 54) ==> Bit(attrs, 5)))
  {
    hide PteAttrs, PteEntry, Walk, Bit;
    var was := Walk(m, PageSpot(root, p));
    EntryGrants(was, attrs);
    MemoryType(PteEntry(was, PteAttrs(attrs)), attrs);
  }

  /** The sticky bit at work: a page mapped execute-never and protected without stays execute-never. */
  lemma {:induction false} StaysExecuteNever(m: Memory, m': Memory, root: nat, p: nat, pa: nat)
    requires RangeMapped(m, root, p, 1, pa, PteAttrs(0x42), {}) && RangeUpdated(m, m', root, p, 1, PteAttrs(0x02))
    ensures Bit(Walk(m', PageSpot(root, p)), 53)
  {
    assert Bit(0x42, 6) && !Bit(0x02, 6);
    assert OnRun(p, p, 1);
    MappedBits(m, root, p, 1, pa, 0x42, {}, p);
    ProtectHonouredIff(m, m', root, p, 1, 0x02, p);
  }
}
