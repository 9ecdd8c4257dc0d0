/**
 Virtual memory areas of mm/vmm.c as values: the ordered list a VMA tree stands for, the
 two-neighbour overlap check, and the page map a list describes.
 */
module VmaMap {
  import opened Bits

  datatype Vma = Vma(va: nat, pa: nat, size: nat, attrs: nat)

  /** Page-aligned, not empty, and ending below 2^64. */
  predicate Proper(v: Vma)
  {
    && v.va % PAGE == 0 && v.pa % PAGE == 0 && v.size % PAGE == 0 && v.size > 0
    && v.va + v.size < TWO64 && v.pa < TWO64
  }

  /** Sorted by address and pairwise disjoint. */
  ghost predicate Ordered(vs: seq<Vma>)
  {
    && (forall i :: 0 <= i < |vs| ==> Proper(vs[i]))
    && (forall i, j :: 0 <= i < j < |vs| ==> vs[i].va + vs[i].size <= vs[j].va)
  }

  predicate Intersects(v: Vma, va: nat, size: nat)
  {
    v.va < va + size && va < v.va + v.size
  }

  /** mm/vmm.c:257-263, with its 64-bit sums. */
  predicate Overlaps(v: Vma, va: nat, size: nat)
  {
    !(Add64(va, size) <= v.va || Add64(v.va, v.size) <= va)
  }

  /** Position of the last area starting at or below `va`, -1 if there is none. */
  function LastAtMost(vs: seq<Vma>, va: nat): (k: int)
    ensures -1 <= k < |vs|
  {
    if vs == [] then -1
    else if vs[|vs| - 1].va <= va then |vs| - 1
    else LastAtMost(vs[..|vs| - 1], va)
  }

  /** Position of the first area starting at or above `va`, `|vs|` if there is none. */
  function FirstAtLeast(vs: seq<Vma>, va: nat): (k: nat)
    ensures k <= |vs|
  {
    if vs == [] then 0
    else if va <= vs[0].va then 0
    else 1 + FirstAtLeast(vs[1..], va)
  }

  /** The check of mm/vmm.c:346-356: the two neighbours of `va` do not overlap. */
  predicate NeighboursClear(vs: seq<Vma>, va: nat, size: nat)
  {
    var p, s := LastAtMost(vs, va), FirstAtLeast(vs, va);
    (p >= 0 ==> !Overlaps(vs[p], va, size)) && (s < |vs| ==> !Overlaps(vs[s], va, size))
  }

  predicate AllClear(vs: seq<Vma>, va: nat, size: nat)
  {
    forall i :: 0 <= i < |vs| ==> !Intersects(vs[i], va, size)
  }

  lemma {:induction false} LastAtMostSplits(vs: seq<Vma>, va: nat)
    requires Ordered(vs)
    ensures var k := LastAtMost(vs, va);
      && (forall i :: 0 <= i <= k ==> vs[i].va <= va)
      && (forall i :: k < i < |vs| ==> va < vs[i].va)
  {
    hide Proper;
    if vs != [] && va < vs[|vs| - 1].va { LastAtMostSplits(vs[..|vs| - 1], va); }
  }

  lemma {:induction false} FirstAtLeastSplits(vs: seq<Vma>, va: nat)
    requires Ordered(vs)
    ensures var k := FirstAtLeast(vs, va);
      && (forall i :: 0 <= i < k ==> vs[i].va < va)
      && (forall i :: k <= i < |vs| ==> va <= vs[i].va)
  {
    if vs != [] && vs[0].va < va {
      var w := vs[1..];
      assert forall i :: 0 <= i < |w| ==> w[i] == vs[i + 1];
      FirstAtLeastSplits(w, va);
    }
  }

  /** Where the list is cut by a threshold decides both positions. */
  lemma {:induction false} CutPositions(vs: seq<Vma>, k: nat, va: nat)
    requires Ordered(vs) && k <= |vs|
    ensures (forall i :: 0 <= i < k ==> vs[i].va <= va) && (forall i :: k <= i < |vs| ==> va < vs[i].va) ==>
            LastAtMost(vs, va) == k - 1
    ensures (forall i :: 0 <= i < k ==> vs[i].va < va) && (forall i :: k <= i < |vs| ==> va <= vs[i].va) ==>
            FirstAtLeast(vs, va) == k
  {
    LastAtMostSplits(vs, va);
    FirstAtLeastSplits(vs, va);
    var a, b := LastAtMost(vs, va), FirstAtLeast(vs, va);
    assert a + 1 < k ==> vs[a + 1].va > va;
    assert a >= k ==> vs[a].va <= va;
    assert b < k ==> vs[b].va >= va;
    assert k < b ==> vs[k].va < va;
  }

  /** On intervals that do not wrap, the check is exact. */
  lemma {:induction false} OverlapsExact(v: Vma, va: nat, size: nat)
    requires Proper(v) && va + size < TWO64
    ensures Overlaps(v, va, size) <==> Intersects(v, va, size)
  {}

  /** Looking at the two neighbours is enough: they are clear exactly when every area is. */
  lemma {:induction false} NeighboursSuffice(vs: seq<Vma>, va: nat, size: nat)
    requires Ordered(vs) && size > 0 && va + size < TWO64
    ensures NeighboursClear(vs, va, size) <==> AllClear(vs, va, size)
  {
    LastAtMostSplits(vs, va);
    FirstAtLeastSplits(vs, va);
    var p, s := LastAtMost(vs, va), FirstAtLeast(vs, va);
    if p >= 0 { OverlapsExact(vs[p], va, size); }
    if s < |vs| { OverlapsExact(vs[s], va, size); }
    if NeighboursClear(vs, va, size) {
      forall i | 0 <= i < |vs| ensures !Intersects(vs[i], va, size) {
        if i < p { assert vs[i].va + vs[i].size <= vs[p].va; }
        if s < i { assert vs[s].va + vs[s].size <= vs[i].va; }
      }
    }
  }

  /** An interval whose end wraps around passes the check on top of an area it covers. */
  lemma {:induction false} WrapDefeatsCheck(va: nat, size: nat)
    requires va % PAGE == 0 && va + PAGE < TWO64 && 0 < size < TWO64 && va + size >= TWO64
    ensures var vs := [Vma(va, 0, PAGE, 0)];
      Ordered(vs) && NeighboursClear(vs, va, size) && !AllClear(vs, va, size)
  {
    var vs := [Vma(va, 0, PAGE, 0)];
    assert Add64(va, size) == va + size - TWO64;
    assert Intersects(vs[0], va, size);
  }

  /** For every start below the last page, the check protects all lists of areas if and only if the
      interval does not wrap. */
  lemma {:induction false} CheckSoundIff(va: nat, size: nat)
    requires va % PAGE == 0 && va + PAGE < TWO64 && 0 < size < TWO64
    ensures (forall vs :: Ordered(vs) && NeighboursClear(vs, va, size) ==> AllClear(vs, va, size)) <==>
            va + size < TWO64
  {
    if va + size < TWO64 {
      forall vs | Ordered(vs) && NeighboursClear(vs, va, size) ensures AllClear(vs, va, size) {
        NeighboursSuffice(vs, va, size);
      }
    } else {
      WrapDefeatsCheck(va, size);
    }
  }

  function Inserted(vs: seq<Vma>, k: nat, v: Vma): seq<Vma>
    requires k <= |vs|
  {
    vs[..k] + [v] + vs[k..]
  }

  function Removed(vs: seq<Vma>, k: nat): seq<Vma>
    requires k < |vs|
  {
    vs[..k] + vs[k + 1..]
  }

  /** A clear area may be inserted after the last one at or below it. */
  lemma {:induction false} InsertedOrdered(vs: seq<Vma>, v: Vma)
    requires Ordered(vs) && Proper(v) && AllClear(vs, v.va, v.size)
    ensures Ordered(Inserted(vs, LastAtMost(vs, v.va) + 1, v))
  {
    LastAtMostSplits(vs, v.va);
    var k := LastAtMost(vs, v.va) + 1;
    var w := Inserted(vs, k, v);
    forall i | 0 <= i < |vs| ensures if i < k then vs[i].va + vs[i].size <= v.va else v.va + v.size <= vs[i].va {
      assert !Intersects(vs[i], v.va, v.size) && Proper(vs[i]);
    }
    SplicedOrdered(vs, k, v);
  }

  /** An area may stand between those that end before it and those that start after it. */
  lemma {:induction false} SplicedOrdered(vs: seq<Vma>, k: nat, v: Vma)
    requires Ordered(vs) && Proper(v) && k <= |vs|
    requires forall i :: 0 <= i < |vs| ==> if i < k then vs[i].va + vs[i].size <= v.va else v.va + v.size <= vs[i].va
    ensures Ordered(Inserted(vs, k, v))
  {
    var w := Inserted(vs, k, v);
    forall i | 0 <= i < |w| ensures w[i] == if i < k then vs[i] else if i == k then v else vs[i - 1] {}
  }

  lemma {:induction false} RemovedOrdered(vs: seq<Vma>, k: nat)
    requires Ordered(vs) && k < |vs|
    ensures Ordered(Removed(vs, k))
  {
    var w := Removed(vs, k);
    assert forall i :: 0 <= i < |w| ==> w[i] == if i < k then vs[i] else vs[i + 1];
  }

  // ---------------------------------------------------------- page maps

  /** The frame `v` puts behind page `p`, with the source's 64-bit sum. */
  function FrameAt(v: Vma, p: nat): nat
  {
    if p < v.va / PAGE then 0 else (v.pa / PAGE + (p - v.va / PAGE)) % 0x10_0000_0000_0000
  }

  function Block(v: Vma): map<nat, nat>
  {
    map p | v.va / PAGE <= p < v.va / PAGE + v.size / PAGE :: FrameAt(v, p)
  }

  /** The page map a list of areas describes. */
  function PageMapOf(vs: seq<Vma>): map<nat, nat>
  {
    if vs == [] then map[] else PageMapOf(vs[..|vs| - 1]) + Block(vs[|vs| - 1])
  }

  lemma {:induction false} BlocksDisjoint(u: Vma, v: Vma)
    requires Proper(u) && Proper(v) && u.va + u.size <= v.va
    ensures Block(u).Keys !! Block(v).Keys
  {}

  /** The page map of a prefix and a block above it share no page. */
  lemma {:induction false} BlockFresh(vs: seq<Vma>, v: Vma)
    requires forall i :: 0 <= i < |vs| ==> Block(vs[i]).Keys !! Block(v).Keys
    ensures PageMapOf(vs).Keys !! Block(v).Keys
  {
    if vs != [] { BlockFresh(vs[..|vs| - 1], v); }
  }

  lemma {:induction false} PageMapSnoc(vs: seq<Vma>, v: Vma)
    ensures PageMapOf(vs + [v]) == PageMapOf(vs) + Block(v)
  {
    assert (vs + [v])[..|vs|] == vs;
  }

  lemma {:induction false} PageMapAppend(a: seq<Vma>, v: Vma, b: seq<Vma>)
    requires forall i :: 0 <= i < |b| ==> Block(b[i]).Keys !! Block(v).Keys
    ensures PageMapOf(a + [v] + b) == PageMapOf(a + b) + Block(v)
  {
    if b == [] {
      assert a + [v] + b == a + [v] && a + b == a;
      PageMapSnoc(a, v);
    } else {
      var c, l := b[..|b| - 1], b[|b| - 1];
      assert a + [v] + b == (a + [v] + c) + [l] && a + b == (a + c) + [l];
      PageMapAppend(a, v, c);
      PageMapSnoc(a + [v] + c, l);
      PageMapSnoc(a + c, l);
      MapUnionSwap(PageMapOf(a + c), Block(v), Block(l));
    }
  }

  lemma {:induction false} MapUnionSwap(m: map<nat, nat>, x: map<nat, nat>, y: map<nat, nat>)
    requires x.Keys !! y.Keys
    ensures m + x + y == m + y + x
  {}

  /** Inserting an area adds exactly its block. */
  lemma {:induction false} PageMapInserted(vs: seq<Vma>, k: nat, v: Vma)
    requires k <= |vs| && Ordered(Inserted(vs, k, v))
    ensures PageMapOf(Inserted(vs, k, v)) == PageMapOf(vs) + Block(v)
    ensures PageMapOf(vs).Keys !! Block(v).Keys
  {
    var w := Inserted(vs, k, v);
    assert w[k] == v;
    forall i | 0 <= i < |vs| ensures Block(vs[i]).Keys !! Block(v).Keys {
      if i < k {
        assert w[i] == vs[i];
        BlocksDisjoint(vs[i], v);
      } else {
        assert w[i + 1] == vs[i];
        BlocksDisjoint(v, vs[i]);
      }
    }
    BlockFresh(vs, v);
    PageMapAppend(vs[..k], v, vs[k..]);
    assert vs[..k] + vs[k..] == vs;
  }

  /** Removing an area removes exactly its pages. */
  lemma {:induction false} PageMapRemoved(vs: seq<Vma>, k: nat)
    requires k < |vs| && Ordered(vs)
    ensures PageMapOf(Removed(vs, k)) == PageMapOf(vs) - Block(vs[k]).Keys
  {
    assert Inserted(Removed(vs, k), k, vs[k]) == vs;
    PageMapInserted(Removed(vs, k), k, vs[k]);
  }

  /** A page lies in the map exactly when some area covers it, and then the map gives that area's frame. */
  lemma {:induction false} PageMapLookup(vs: seq<Vma>, k: nat)
    requires k < |vs| && Ordered(vs)
    ensures forall p :: p in Block(vs[k]) ==> p in PageMapOf(vs) && PageMapOf(vs)[p] == Block(vs[k])[p]
  {
    assert Inserted(Removed(vs, k), k, vs[k]) == vs;
    PageMapInserted(Removed(vs, k), k, vs[k]);
  }

  lemma {:induction false} PageMapCovered(vs: seq<Vma>, p: nat) returns (k: nat)
    requires p in PageMapOf(vs)
    ensures k < |vs| && p in Block(vs[k])
  {
    if p in Block(vs[|vs| - 1]) { k := |vs| - 1; } else { k := PageMapCovered(vs[..|vs| - 1], p); }
  }

  /** Attributes do not matter to the page map. */
  lemma {:induction false} BlockAttrs(v: Vma, attrs: nat)
    ensures Block(v.(attrs := attrs)) == Block(v)
  {}

  lemma {:induction false} PageMapAttrs(vs: seq<Vma>, k: nat, attrs: nat)
    requires k < |vs|
    ensures PageMapOf(vs[k := vs[k].(attrs := attrs)]) == PageMapOf(vs)
  {
    hide Block;
    var w := vs[k := vs[k].(attrs := attrs)];
    BlockAttrs(vs[k], attrs);
    if k == |vs| - 1 {
      assert w[..k] == vs[..k];
    } else {
      assert w[..|vs| - 1] == vs[..|vs| - 1][k := vs[k].(attrs := attrs)];
      PageMapAttrs(vs[..|vs| - 1], k, attrs);
    }
  }

  /** The address behind `va` in an area, with the source's 64-bit sum (mm/vmm.c:514). */
  lemma {:induction false} AddressInBlock(v: Vma, va: nat)
    requires Proper(v) && v.va <= va < v.va + v.size
    ensures va / PAGE in Block(v)
    ensures Add64(v.pa, va - v.va) == Block(v)[va / PAGE] * PAGE + va % PAGE
  {
    var p, a, b := va / PAGE, v.va / PAGE, v.pa / PAGE;
    assert v.va == a * PAGE && v.pa == b * PAGE && va == p * PAGE + va % PAGE;
    assert v.size == v.size / PAGE * PAGE;
    WrapPages(b + (p - a), va % PAGE);
  }

  lemma {:induction false} WrapPages(f: nat, r: nat)
    requires r < PAGE
    ensures (f * PAGE + r) % TWO64 == f % 0x10_0000_0000_0000 * PAGE + r
  {
    var q := f / 0x10_0000_0000_0000;
    DivUnique(f * PAGE + r, TWO64, q, f % 0x10_0000_0000_0000 * PAGE + r);
  }
}
