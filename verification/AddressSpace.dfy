/**
 The vmalloc window on values (mm/vmalloc.c): free extents, newest first, and the untouched tail;
 best-fit search, and the accounting of every address of the window.
 */
module AddressSpace {
  import opened Bits

  const VMALLOC_START: nat := 0xFFFF_FF80_8000_0000
  const VMALLOC_END: nat := 0xFFFF_FF80_C000_0000

  lemma {:induction false} AddFits(a: nat, b: nat)
    requires a + b < TWO64
    ensures Add64(a, b) == a + b
  {}

  datatype Extent = Extent(va: nat, size: nat)

  predicate Contains(e: Extent, a: nat)
  {
    e.va <= a < e.va + e.size
  }

  /** The position of the first smallest extent that is large enough, or -1. */
  function Best(fs: seq<Extent>, size: nat): (k: int)
    ensures -1 <= k < |fs|
  {
    if fs == [] then -1
    else
      var b, i := Best(fs[..|fs| - 1], size), |fs| - 1;
      if fs[i].size >= size && (b < 0 || fs[i].size < fs[b].size) then i else b
  }

  lemma {:induction false} BestStep(fs: seq<Extent>, i: nat, size: nat)
    requires i < |fs|
    ensures var b := Best(fs[..i], size);
      Best(fs[..i + 1], size) == if fs[i].size >= size && (b < 0 || fs[i].size < fs[b].size) then i else b
  {
    assert fs[..i + 1][..i] == fs[..i];
  }

  /** It is large enough, none that is large enough is smaller, and it is the first such; there is none
      exactly when no extent is large enough. */
  lemma {:induction false} BestIsSmallest(fs: seq<Extent>, size: nat)
    ensures var k := Best(fs, size);
      && (k == -1 <==> forall i :: 0 <= i < |fs| ==> fs[i].size < size)
      && (k >= 0 ==> fs[k].size >= size && forall i :: 0 <= i < |fs| && fs[i].size >= size ==> fs[k].size <= fs[i].size)
      && (k >= 0 ==> forall i :: 0 <= i < k && fs[i].size >= size ==> fs[k].size < fs[i].size)
  {
    if fs != [] {
      BestIsSmallest(fs[..|fs| - 1], size);
    }
  }

  /** Extent `k` gives `size` bytes from its front, and goes away when that is all of it. */
  function Cut(fs: seq<Extent>, k: nat, size: nat): seq<Extent>
    requires k < |fs| && fs[k].size >= size
  {
    if fs[k].size == size then fs[..k] + fs[k + 1..]
    else fs[k := Extent(fs[k].va + size, fs[k].size - size)]
  }

  // --------------------------------------------------- accounting

  /** How many of the extents contain address `a`. */
  function Owners(es: seq<Extent>, a: nat): nat
  {
    if es == [] then 0 else (if Contains(es[0], a) then 1 else 0) + Owners(es[1..], a)
  }

  /** Every address handed out so far belongs to exactly one free or live extent, every other to none:
      the extents are disjoint and cover exactly the window up to `next`. */
  ghost predicate Accounted(fs: seq<Extent>, live: seq<Extent>, next: nat)
  {
    && VMALLOC_START <= next <= VMALLOC_END
    && forall a: nat :: Owners(fs, a) + Owners(live, a) == if VMALLOC_START <= a < next then 1 else 0
  }

  lemma {:induction false} NothingAccounted(fs: seq<Extent>, live: seq<Extent>, next: nat)
    requires fs == [] && live == [] && next == VMALLOC_START
    ensures Accounted(fs, live, next)
  {}

  lemma {:induction false} OwnersSplit(es: seq<Extent>, fs: seq<Extent>, a: nat)
    ensures Owners(es + fs, a) == Owners(es, a) + Owners(fs, a)
  {
    if es == [] {
      assert es + fs == fs;
    } else {
      assert (es + fs)[1..] == es[1..] + fs;
      OwnersSplit(es[1..], fs, a);
    }
  }

  lemma {:induction false} OwnersAt(es: seq<Extent>, k: nat, a: nat)
    requires k < |es|
    ensures Owners(es, a) == Owners(es[..k] + es[k + 1..], a) + (if Contains(es[k], a) then 1 else 0)
  {
    assert es == es[..k] + ([es[k]] + es[k + 1..]);
    OwnersSplit(es[..k], [es[k]] + es[k + 1..], a);
    OwnersSplit([es[k]], es[k + 1..], a);
    OwnersSplit(es[..k], es[k + 1..], a);
    assert [es[k]][1..] == [];
  }

  lemma {:induction false} OwnersCut(fs: seq<Extent>, k: nat, size: nat, a: nat)
    requires k < |fs| && fs[k].size >= size
    ensures Owners(fs, a) == Owners(Cut(fs, k, size), a) + (if Contains(Extent(fs[k].va, size), a) then 1 else 0)
  {
    OwnersAt(fs, k, a);
    if fs[k].size != size {
      var gs := Cut(fs, k, size);
      OwnersAt(gs, k, a);
      assert gs[..k] == fs[..k] && gs[k + 1..] == fs[k + 1..];
    }
  }

  lemma {:induction false} OwnersPush(es: seq<Extent>, e: Extent, a: nat)
    ensures Owners([e] + es, a) == Owners(es, a) + (if Contains(e, a) then 1 else 0)
  {
    assert ([e] + es)[1..] == es;
  }

  /** Taking the front of a free extent keeps the account. */
  lemma {:induction false} CutAccounted(fs: seq<Extent>, live: seq<Extent>, next: nat, k: nat, size: nat)
    requires Accounted(fs, live, next) && k < |fs| && fs[k].size >= size > 0
    ensures Accounted(Cut(fs, k, size), [Extent(fs[k].va, size)] + live, next)
    ensures VMALLOC_START <= fs[k].va && fs[k].va + fs[k].size <= next
  {
    forall a: nat
      ensures Owners(Cut(fs, k, size), a) + Owners([Extent(fs[k].va, size)] + live, a) ==
              Owners(fs, a) + Owners(live, a)
    {
      OwnersCut(fs, k, size, a);
      OwnersPush(live, Extent(fs[k].va, size), a);
    }
    InWindow(fs, live, next, k);
  }

  lemma {:induction false} InWindow(fs: seq<Extent>, live: seq<Extent>, next: nat, k: nat)
    requires Accounted(fs, live, next) && k < |fs| && fs[k].size > 0
    ensures VMALLOC_START <= fs[k].va && fs[k].va + fs[k].size <= next
  {
    var first, last := fs[k].va, fs[k].va + fs[k].size - 1;
    OwnersAt(fs, k, first);
    OwnersAt(fs, k, last);
    assert Owners(fs, first) + Owners(live, first) >= 1 && Owners(fs, last) + Owners(live, last) >= 1;
  }

  lemma {:induction false} LiveInWindow(fs: seq<Extent>, live: seq<Extent>, next: nat, k: nat)
    requires Accounted(fs, live, next) && k < |live| && live[k].size > 0
    ensures VMALLOC_START <= live[k].va && live[k].va + live[k].size <= next <= VMALLOC_END
  {
    var first, last := live[k].va, live[k].va + live[k].size - 1;
    OwnersAt(live, k, first);
    OwnersAt(live, k, last);
    assert Owners(fs, first) + Owners(live, first) >= 1 && Owners(fs, last) + Owners(live, last) >= 1;
  }

  /** So does taking from the tail, when it does not reach beyond the window. */
  lemma {:induction false} TailAccounted(fs: seq<Extent>, live: seq<Extent>, next: nat, size: nat)
    requires Accounted(fs, live, next) && next + size <= VMALLOC_END
    ensures Accounted(fs, [Extent(next, size)] + live, next + size)
  {
    forall a: nat
      ensures Owners(fs, a) + Owners([Extent(next, size)] + live, a) ==
              if VMALLOC_START <= a < next + size then 1 else 0
    {
      OwnersPush(live, Extent(next, size), a);
      assert Owners(fs, a) + Owners(live, a) == if VMALLOC_START <= a < next then 1 else 0;
    }
  }

  /** Giving a live extent back moves it to the free ones. */
  lemma {:induction false} ReturnAccounted(fs: seq<Extent>, live: seq<Extent>, next: nat, k: nat)
    requires Accounted(fs, live, next) && k < |live|
    ensures Accounted([live[k]] + fs, live[..k] + live[k + 1..], next)
  {
    forall a: nat
      ensures Owners([live[k]] + fs, a) + Owners(live[..k] + live[k + 1..], a) == Owners(fs, a) + Owners(live, a)
    {
      OwnersPush(fs, live[k], a);
      OwnersAt(live, k, a);
    }
  }

  /** No two extents of the account share an address. */
  lemma {:induction false} AccountedDisjoint(fs: seq<Extent>, live: seq<Extent>, next: nat, i: nat, j: nat, a: nat)
    requires Accounted(fs, live, next) && i < |fs| && j < |live| && Contains(fs[i], a)
    ensures !Contains(live[j], a)
  {
    OwnersAt(fs, i, a);
    OwnersAt(live, j, a);
    assert Owners(fs, a) + Owners(live, a) <= 1;
  }

  // --------------------------------------------------- neighbours

  /** One ends where the other begins. */
  predicate Touch(e: Extent, f: Extent)
  {
    e.va + e.size == f.va || f.va + f.size == e.va
  }

  /** No pair of extents up to (`i`, `j`) touches, in the order of the two loops of mm/vmalloc.c:64-114. */
  ghost predicate NoneTo(fs: seq<Extent>, i: nat, j: nat)
  {
    forall a, b :: 0 <= a < b < |fs| && (a < i || (a == i && b < j)) ==> !Touch(fs[a], fs[b])
  }

  ghost predicate NoTouch(fs: seq<Extent>)
  {
    forall a, b :: 0 <= a < b < |fs| ==> !Touch(fs[a], fs[b])
  }

  ghost predicate TouchesAny(e: Extent, fs: seq<Extent>)
  {
    exists i :: 0 <= i < |fs| && Touch(e, fs[i])
  }

  lemma {:induction false} PushedTouch(e: Extent, fs: seq<Extent>)
    requires NoTouch(fs)
    ensures NoTouch([e] + fs) <==> !TouchesAny(e, fs)
  {
    var gs := [e] + fs;
    assert forall i :: 0 < i < |gs| ==> gs[i] == fs[i - 1];
    if i :| 0 <= i < |fs| && Touch(e, fs[i]) { assert Touch(gs[0], gs[i + 1]); }
  }

  /** Without extents `i` and `j`. */
  function Dropped(fs: seq<Extent>, i: nat, j: nat): seq<Extent>
    requires i < j < |fs|
  {
    fs[..i] + fs[i + 1..j] + fs[j + 1..]
  }

  /** Taking two extents off the list loses their addresses: the account is gone. */
  lemma {:induction false} MergeLoses(fs: seq<Extent>, live: seq<Extent>, next: nat, i: nat, j: nat)
    requires Accounted(fs, live, next) && i < j < |fs| && fs[i].size > 0
    ensures !Accounted(Dropped(fs, i, j), live, next)
  {
    var a := fs[i].va;
    var gs := fs[..j] + fs[j + 1..];
    OwnersAt(fs, j, a);
    OwnersAt(gs, i, a);
    assert gs[..i] + gs[i + 1..] == Dropped(fs, i, j);
    InWindow(fs, live, next, i);
  }

  /** Two blocks side by side are an account, and merging them loses it. */
  lemma {:induction false} TwoBlocksLost(fs: seq<Extent>, next: nat)
    requires fs == [Extent(VMALLOC_START, 3 * PAGE), Extent(VMALLOC_START + 3 * PAGE, PAGE)]
    requires next == VMALLOC_START + 4 * PAGE
    ensures Accounted(fs, [], next) && Touch(fs[0], fs[1]) && !Accounted(Dropped(fs, 0, 1), [], next)
  {
    assert fs[1..][1..] == [];
    MergeLoses(fs, [], next, 0, 1);
  }

  ghost predicate Sizes(fs: seq<Extent>)
  {
    forall i :: 0 <= i < |fs| ==> fs[i].size > 0
  }

  /** No two free extents share an address. */
  lemma {:induction false} FreeDisjoint(fs: seq<Extent>, live: seq<Extent>, next: nat, i: nat, j: nat, a: nat)
    requires Accounted(fs, live, next) && i < j < |fs|
    ensures !(Contains(fs[i], a) && Contains(fs[j], a))
  {
    var gs := fs[..j] + fs[j + 1..];
    OwnersAt(fs, j, a);
    OwnersAt(gs, i, a);
    assert gs[i] == fs[i] && Owners(fs, a) + Owners(live, a) <= 1;
  }

  /** What is left of an extent touches nobody new. */
  lemma {:induction false} ShrunkApart(fs: seq<Extent>, live: seq<Extent>, next: nat, k: nat, size: nat, i: nat)
    requires Accounted(fs, live, next) && Sizes(fs) && NoTouch(fs) && k < |fs| && i < |fs| && i != k
    requires 0 < size < fs[k].size
    ensures !Touch(Extent(fs[k].va + size, fs[k].size - size), fs[i])
  {
    var a := fs[i].va + fs[i].size - 1;
    if i < k {
      assert !Touch(fs[i], fs[k]);
      FreeDisjoint(fs, live, next, i, k, a);
    } else {
      assert !Touch(fs[k], fs[i]);
      FreeDisjoint(fs, live, next, k, i, a);
    }
  }

  /** The search leaves no two free extents touching if none did before. */
  lemma {:induction false} FindNoTouch(fs: seq<Extent>, live: seq<Extent>, next: nat, size: nat)
    requires Accounted(fs, live, next) && Sizes(fs) && NoTouch(fs) && size > 0
    ensures NoTouch(Find(fs, next, size).fs)
  {
    var k := Best(fs, size);
    BestIsSmallest(fs, size);
    if k >= 0 {
      CutNoTouch(fs, live, next, k, size);
    }
  }

  lemma {:induction false} CutNoTouch(fs: seq<Extent>, live: seq<Extent>, next: nat, k: nat, size: nat)
    requires Accounted(fs, live, next) && Sizes(fs) && NoTouch(fs) && k < |fs| && 0 < size <= fs[k].size
    ensures NoTouch(Cut(fs, k, size))
  {
    hide Accounted, Touch;
    var gs := Cut(fs, k, size);
    if fs[k].size == size {
      assert forall i :: 0 <= i < |gs| ==> gs[i] == fs[if i < k then i else i + 1];
    } else {
      forall a, b | 0 <= a < b < |gs| ensures !Touch(gs[a], gs[b]) {
        if a == k {
          ShrunkApart(fs, live, next, k, size, b);
        } else if b == k {
          ShrunkApart(fs, live, next, k, size, a);
          TouchBoth(gs[b], gs[a]);
        } else {
          assert !Touch(fs[a], fs[b]);
        }
      }
    }
  }

  lemma {:induction false} TouchBoth(e: Extent, f: Extent)
    ensures Touch(e, f) <==> Touch(f, e)
  {}

  /** A region cut from a larger block touches what is left of it: giving it back always merges. */
  lemma {:induction false} FrontTouches(fs: seq<Extent>, next: nat, size: nat)
    requires Best(fs, size) >= 0 && fs[Best(fs, size)].size > size
    ensures var r := Find(fs, next, size); TouchesAny(Extent(r.va, size), r.fs)
  {
    var k := Best(fs, size);
    var r := Find(fs, next, size);
    assert Touch(Extent(r.va, size), r.fs[k]);
  }

  // ---------------------------------------------- the search as a whole

  datatype Search = Search(va: nat, fs: seq<Extent>, next: nat)

  /** What find_free_space answers and leaves, with its 64-bit sum (mm/vmalloc.c:119-160). */
  function Find(fs: seq<Extent>, next: nat, size: nat): Search
  {
    var k := Best(fs, size);
    BestIsSmallest(fs, size);
    if k >= 0 then Search(fs[k].va, Cut(fs, k, size), next)
    else if Add64(next, size) > VMALLOC_END then Search(0, fs, next)
    else Search(next, fs, Add64(next, size))
  }

  /** The answer, if there is one, lies in the window and was nobody's or free, and the account is kept
      with it live, exactly unless the request wraps around the end of the address space. */
  lemma {:induction false} FindAccountedIff(fs: seq<Extent>, live: seq<Extent>, next: nat, size: nat)
    requires Accounted(fs, live, next) && 0 < size < TWO64
    ensures var r := Find(fs, next, size);
      r.va != 0 ==> (Accounted(r.fs, [Extent(r.va, size)] + live, r.next) <==>
        Best(fs, size) >= 0 || next + size < TWO64)
    ensures var r := Find(fs, next, size);
      r.va != 0 && (Best(fs, size) >= 0 || next + size < TWO64) ==> VMALLOC_START <= r.va && r.va + size <= VMALLOC_END
    ensures Find(fs, next, size).va == 0 ==> Find(fs, next, size) == Search(0, fs, next)
  {
    var k := Best(fs, size);
    BestIsSmallest(fs, size);
    if k >= 0 {
      CutAccounted(fs, live, next, k, size);
    } else if next + size < TWO64 {
      assert Add64(next, size) == next + size;
      if next + size <= VMALLOC_END { TailAccounted(fs, live, next, size); }
    } else {
      assert Add64(next, size) == next + size - TWO64 < next;
      OwnersPush(live, Extent(next, size), next);
    }
  }

  /** No request is answered with nothing while an extent is large enough or the tail is. */
  lemma {:induction false} FindFailsIff(fs: seq<Extent>, live: seq<Extent>, next: nat, size: nat)
    requires Accounted(fs, live, next) && 0 < size && next + size < TWO64
    ensures Find(fs, next, size).va == 0 <==>
            (forall i :: 0 <= i < |fs| ==> fs[i].size < size) && next + size > VMALLOC_END
  {
    BestIsSmallest(fs, size);
    if Best(fs, size) >= 0 { InWindow(fs, live, next, Best(fs, size)); }
  }

  /** (size + 4095) / 4096 in 64 bits (mm/vmalloc.c:188). */
  function PagesFor(size: nat): nat
  {
    Add64(size, PAGE - 1) / PAGE
  }

  /** The pages and two guards. */
  function TotalFor(size: nat): nat
  {
    (PagesFor(size) + 2) * PAGE
  }

  /** The same with the source's 64-bit sum (mm/vmalloc.c:189-190). */
  function Total64(size: nat): nat
  {
    Add64(PagesFor(size) * PAGE, 2 * PAGE)
  }

  /** The rounding of a request to pages covers it, with less than a page to spare, exactly unless its 64-bit
      sum wraps. */
  lemma {:induction false} RoundingCoversIff(size: nat)
    requires size < TWO64
    ensures PagesFor(size) * 4096 >= size <==> size + 4095 < 0x1_0000_0000_0000_0000
    ensures PagesFor(size) * 4096 < size + 4096
  {
    if size + PAGE - 1 < TWO64 {
      AddFits(size, PAGE - 1);
    } else {
      assert Add64(size, PAGE - 1) == size + PAGE - 1 - TWO64;
    }
  }

  /** The sum with the guards wraps for the last requests whose rounding does not: the total is that of
      pages and guards exactly for all others. So it covers the request and two guards exactly up to
      2^64 - 12288 bytes. */
  lemma {:induction false} TotalCoversIff(size: nat)
    requires size < TWO64
    ensures Total64(size) == TotalFor(size) <==> size <= TWO64 - 3 * PAGE || size > TWO64 - PAGE
    ensures Total64(size) >= size + 2 * PAGE <==> size <= TWO64 - 3 * PAGE
    ensures TWO64 - 3 * PAGE < size <= TWO64 - PAGE ==> Total64(size) == 0 || Total64(size) == PAGE
  {
    var n := PagesFor(size);
    if size + PAGE - 1 < TWO64 {
      AddFits(size, PAGE - 1);
      assert size <= n * PAGE < size + PAGE;
    } else {
      assert Add64(size, PAGE - 1) == size + PAGE - 1 - TWO64 && n == 0;
    }
    if n * PAGE + 2 * PAGE < TWO64 {
      AddFits(n * PAGE, 2 * PAGE);
    } else {
      assert Total64(size) == n * PAGE + 2 * PAGE - TWO64;
    }
  }
}
