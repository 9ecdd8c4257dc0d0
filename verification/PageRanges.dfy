/**
 Runs of pages in the upper half of the address space, and what a loop over such a run does to
 the walks of the page tables.
 */
module PageRanges {
  import opened Bits
  import opened PageTables
  import opened Descriptors

  /** The pages of the addresses from 0xFFFF_0000_0000_0000 up, which TTBR1 translates. */
  const KERNEL_FIRST: nat := 0xF_FFF0_0000_0000
  const KERNEL_END: nat := 0x10_0000_0000_0000

  function PageSpot(root: nat, p: nat): Spot
  {
    SpotOf(root, p * PAGE)
  }

  lemma {:induction false} SpotOfPage(root: nat, va: nat)
    ensures SpotOf(root, va) == PageSpot(root, va / PAGE)
  {
    SameSpot(root, va, root, va / PAGE * PAGE);
  }

  /** Kernel pages end at different places of the tables. */
  lemma {:induction false} PageSpotInjective(root: nat, p: nat, p': nat)
    requires KERNEL_FIRST <= p < KERNEL_END && KERNEL_FIRST <= p' < KERNEL_END
    requires PageSpot(root, p) == PageSpot(root, p')
    ensures p == p'
  {
    SameSpot(root, p * PAGE, root, p' * PAGE);
    KernelPage(p);
    KernelPage(p');
  }

  lemma {:induction false} KernelPage(p: nat)
    requires KERNEL_FIRST <= p < KERNEL_END
    ensures Page48(p * PAGE) == p - KERNEL_FIRST
  {
    DivUnique(p * PAGE, PAGE, p, 0);
    DivUnique(p, 0x10_0000_0000, 0xFFFF, p - KERNEL_FIRST);
  }

  predicate OnRun(p: nat, first: nat, n: nat)
  {
    first <= p < first + n
  }

  /** Every walk that does not end on a page of the run is as before. */
  ghost predicate OthersSame(m: Memory, m': Memory, tabs: Tables, root: nat, first: nat, n: nat)
  {
    forall q: Spot :: Pgd(q.root) in tabs && (forall p :: OnRun(p, first, n) ==> q != PageSpot(root, p)) ==>
      Walk(m', q) == Walk(m, q)
  }

  /** Every page of the run that did not fail holds its entry. */
  ghost predicate RangeMapped(m: Memory, root: nat, first: nat, n: nat, pa: nat, attrs: nat, failed: set<nat>)
  {
    forall p: nat :: OnRun(p, first, n) && p !in failed ==>
      Walk(m, PageSpot(root, p)) == PteEntry(Add64(pa, (p - first) * PAGE), attrs)
  }

  ghost predicate RangeInvalid(m: Memory, root: nat, first: nat, n: nat)
  {
    forall p :: OnRun(p, first, n) ==> !IsValid(Walk(m, PageSpot(root, p)))
  }

  /** Every page of the run that was valid has new attributes, and no other changed. */
  ghost predicate RangeUpdated(m: Memory, m': Memory, root: nat, first: nat, n: nat, attrs: nat)
  {
    forall p :: OnRun(p, first, n) ==>
      var was := Walk(m, PageSpot(root, p));
      Walk(m', PageSpot(root, p)) == if IsValid(was) then PteEntry(was, attrs) else was
  }

  lemma {:induction false} OnRunMore(p: nat, first: nat, n: nat)
    ensures OnRun(p, first, n + 1) <==> OnRun(p, first, n) || p == first + n
  {}

  /** A change at the page just behind the run keeps everything known about the run. */
  lemma {:induction false} OthersStep(m0: Memory, m: Memory, m': Memory, tabs: Tables, tabs': Tables, root: nat,
                                      first: nat, n: nat, hit: bool, e: nat)
    requires OthersSame(m0, m, tabs, root, first, n) && WalksChanged(m, tabs', m', PageSpot(root, first + n), hit, e)
    requires forall r :: Pgd(r) in tabs <==> Pgd(r) in tabs'
    ensures OthersSame(m0, m', tabs', root, first, n + 1)
  {
    forall q: Spot | Pgd(q.root) in tabs' && (forall p :: OnRun(p, first, n + 1) ==> q != PageSpot(root, p))
      ensures Walk(m', q) == Walk(m0, q)
    {
      forall p | OnRun(p, first, n) ensures q != PageSpot(root, p) { OnRunMore(p, first, n); }
      OnRunMore(first + n, first, n);
    }
  }

  /** The page behind the run is not on it. */
  lemma {:induction false} EarlierKept(m: Memory, m': Memory, tabs: Tables, root: nat, first: nat, n: nat, hit: bool,
                                       e: nat, p: nat)
    requires WalksChanged(m, tabs, m', PageSpot(root, first + n), hit, e) && Pgd(root) in tabs
    requires KERNEL_FIRST <= first && first + n < KERNEL_END && OnRun(p, first, n)
    ensures Walk(m', PageSpot(root, p)) == Walk(m, PageSpot(root, p))
  {
    if PageSpot(root, p) == PageSpot(root, first + n) { PageSpotInjective(root, p, first + n); }
    assert PageSpot(root, p).root == root;
  }

  lemma {:induction false} MappedStep(m: Memory, m': Memory, tabs: Tables, root: nat, first: nat, n: nat, pa: nat,
                                      attrs: nat, failed: set<nat>, hit: bool)
    requires RangeMapped(m, root, first, n, pa, attrs, failed) && Pgd(root) in tabs
    requires WalksChanged(m, tabs, m', PageSpot(root, first + n), hit, PteEntry(Add64(pa, n * PAGE), attrs))
    requires KERNEL_FIRST <= first && first + n < KERNEL_END
    ensures RangeMapped(m', root, first, n + 1, pa, attrs, if hit then failed else failed + {first + n})
  {
    var failed' := if hit then failed else failed + {first + n};
    forall p: nat | OnRun(p, first, n + 1) && p !in failed'
      ensures Walk(m', PageSpot(root, p)) == PteEntry(Add64(pa, (p - first) * PAGE), attrs)
    {
      if p == first + n {
        assert PageSpot(root, p).root == root;
      } else {
        EarlierKept(m, m', tabs, root, first, n, hit, PteEntry(Add64(pa, n * PAGE), attrs), p);
      }
    }
  }

  lemma {:induction false} InvalidStep(m: Memory, m': Memory, tabs: Tables, root: nat, first: nat, n: nat, hit: bool)
    requires RangeInvalid(m, root, first, n) && Pgd(root) in tabs
    requires WalksChanged(m, tabs, m', PageSpot(root, first + n), hit, 0)
    requires hit <==> IsValid(Walk(m, PageSpot(root, first + n)))
    requires KERNEL_FIRST <= first && first + n < KERNEL_END
    ensures RangeInvalid(m', root, first, n + 1)
  {
    forall p | OnRun(p, first, n + 1) ensures !IsValid(Walk(m', PageSpot(root, p))) {
      if p == first + n {
        assert PageSpot(root, p).root == root;
      } else {
        EarlierKept(m, m', tabs, root, first, n, hit, 0, p);
      }
    }
  }

  lemma {:induction false} UpdatedStep(m0: Memory, m: Memory, m': Memory, tabs: Tables, root: nat, first: nat, n: nat,
                                       attrs: nat, hit: bool)
    requires RangeUpdated(m0, m, root, first, n, attrs) && OthersSame(m0, m, tabs, root, first, n) && Pgd(root) in tabs
    requires WalksChanged(m, tabs, m', PageSpot(root, first + n), hit,
                          PteEntry(Walk(m, PageSpot(root, first + n)), attrs))
    requires hit <==> IsValid(Walk(m, PageSpot(root, first + n)))
    requires KERNEL_FIRST <= first && first + n < KERNEL_END
    ensures RangeUpdated(m0, m', root, first, n + 1, attrs)
  {
    var here := PageSpot(root, first + n);
    assert here.root == root;
    forall p | OnRun(p, first, n) ensures here != PageSpot(root, p) {
      if here == PageSpot(root, p) { PageSpotInjective(root, p, first + n); }
    }
    assert Walk(m, here) == Walk(m0, here);
    forall p | OnRun(p, first, n + 1)
      ensures var was := Walk(m0, PageSpot(root, p));
        Walk(m', PageSpot(root, p)) == if IsValid(was) then PteEntry(was, attrs) else was
    {
      if p != first + n { EarlierKept(m, m', tabs, root, first, n, hit, PteEntry(Walk(m, here), attrs), p); }
    }
  }
}
