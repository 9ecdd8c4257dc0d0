/**
 What an allocation in progress holds, on values: areas added to the address space and frames taken
 from the page allocator, and that giving them back leaves nothing but page tables.
 */
module VmallocBooks {
  import opened Bits
  import PageMap
  import opened PageTables
  import opened VmaMap
  import opened MmuClass
  import opened AddressSpace

  // ------------------------------------------------------------- frames

  /** Since `p0`, `t0`, pages were taken for new tables and for the frames `held`, and for nothing else. */
  ghost predicate Owned(base: nat, p0: PageMap.Pages, t0: Tables, p: PageMap.Pages, t: Tables, held: set<nat>)
  {
    && |p| == |p0| && SameRoots(t0, t)
    && (forall k :: k in t0 ==> k in t && t[k] == t0[k])
    && (forall k :: k in t && k !in t0 ==> !FrameTaken(base, p0, t[k]))
    && (forall i :: 0 <= i < |p0| && p0[i] ==> p[i])
    && (forall i :: 0 <= i < |p0| && p[i] && !p0[i] ==> base + i in t.Values || base + i in held)
    && (forall h :: h in held ==> FrameTaken(base, p, h) && !FrameTaken(base, p0, h) && h !in t.Values)
  }

  /** With nothing held, only tables were added. */
  lemma {:induction false} OwnedNothing(base: nat, p0: PageMap.Pages, t0: Tables, p: PageMap.Pages, t: Tables)
    requires Owned(base, p0, t0, p, t, {})
    ensures TablesGrew(base, p0, t0, p, t)
  {}

  lemma {:induction false} OwnedTake(base: nat, p0: PageMap.Pages, t0: Tables, p: PageMap.Pages, t: Tables,
                                     held: set<nat>, p': PageMap.Pages, f: nat)
    requires Owned(base, p0, t0, p, t, held) && FrameTakes(base, p, p', f)
    requires forall k :: k in t ==> FrameTaken(base, p, t[k])
    ensures Owned(base, p0, t0, p', t, held + {f}) && f !in held
  {}

  lemma {:induction false} OwnedGrow(base: nat, p0: PageMap.Pages, t0: Tables, p: PageMap.Pages, t: Tables,
                                     held: set<nat>, p': PageMap.Pages, t': Tables)
    requires Owned(base, p0, t0, p, t, held) && TablesGrew(base, p, t, p', t')
    ensures Owned(base, p0, t0, p', t', held)
  {
    forall f | f in t.Values ensures f in t'.Values {
      var k :| k in t && t[k] == f;
      assert k in t' && t'[k] == f;
    }
    forall h | h in held ensures h !in t'.Values {
      forall k | k in t' ensures t'[k] != h { assert k in t ==> t[k] in t.Values; }
    }
  }

  lemma {:induction false} OwnedGive(base: nat, p0: PageMap.Pages, t0: Tables, p: PageMap.Pages, t: Tables,
                                     held: set<nat>, f: nat)
    requires Owned(base, p0, t0, p, t, held) && f in held
    ensures base <= f < base + |p| && Owned(base, p0, t0, p[f - base := false], t, held - {f})
  {}

  // -------------------------------------------------------------- areas

  /** The areas `mine` were added to `vs0`, and nothing else changed. */
  ghost predicate Added(vs0: seq<Vma>, vs: seq<Vma>, mine: set<Vma>)
  {
    && Ordered(vs0) && Ordered(vs)
    && (forall v :: v in vs <==> v in vs0 || v in mine)
    && (forall v :: v in mine ==> v !in vs0)
  }

  lemma {:induction false} AddedMap(vs0: seq<Vma>, vs: seq<Vma>, mine: set<Vma>, v: Vma)
    requires Added(vs0, vs, mine) && Proper(v) && AllClear(vs, v.va, v.size)
    ensures Added(vs0, Inserted(vs, LastAtMost(vs, v.va) + 1, v), mine + {v}) && v !in mine
  {
    hide LastAtMost;
    InsertedOrdered(vs, v);
    InsertedMembers(vs, LastAtMost(vs, v.va) + 1, v);
    ClearNotIn(vs, v);
    AddedOne(vs0, vs, Inserted(vs, LastAtMost(vs, v.va) + 1, v), mine, v);
  }

  lemma {:induction false} AddedOne(vs0: seq<Vma>, vs: seq<Vma>, us: seq<Vma>, mine: set<Vma>, v: Vma)
    requires Added(vs0, vs, mine) && Ordered(us) && v !in vs && forall u :: u in us <==> u in vs || u == v
    ensures Added(vs0, us, mine + {v}) && v !in mine
  {}

  lemma {:induction false} ClearNotIn(vs: seq<Vma>, v: Vma)
    requires Proper(v) && AllClear(vs, v.va, v.size)
    ensures v !in vs
  {
    forall i | 0 <= i < |vs| ensures vs[i] != v {
      assert !Intersects(vs[i], v.va, v.size);
    }
  }

  lemma {:induction false} InsertedMembers(vs: seq<Vma>, k: nat, v: Vma)
    requires k <= |vs|
    ensures forall u :: u in Inserted(vs, k, v) <==> u in vs || u == v
  {
    assert vs == vs[..k] + vs[k..];
  }

  lemma {:induction false} AddedUnmap(vs0: seq<Vma>, vs: seq<Vma>, mine: set<Vma>, k: nat)
    requires Added(vs0, vs, mine) && k < |vs| && vs[k] in mine
    ensures Added(vs0, Removed(vs, k), mine - {vs[k]})
  {
    RemovedOrdered(vs, k);
    forall v ensures v in Removed(vs, k) <==> v in vs && v != vs[k] {
      RemovedMember(vs, k, v);
    }
  }

  lemma {:induction false} RemovedMember(vs: seq<Vma>, k: nat, v: Vma)
    requires Ordered(vs) && k < |vs|
    ensures v in Removed(vs, k) <==> v in vs && v != vs[k]
  {
    hide Ordered;
    var w := Removed(vs, k);
    if v in w {
      var i :| 0 <= i < |w| && w[i] == v;
      var j := if i < k then i else i + 1;
      assert vs[j] == v;
      StartsDiffer(vs, j, k);
    }
    if v in vs && v != vs[k] {
      var i :| 0 <= i < |vs| && vs[i] == v;
      assert w[if i < k then i else i - 1] == v;
    }
  }

  lemma {:induction false} StartsDiffer(vs: seq<Vma>, i: nat, j: nat)
    requires Ordered(vs) && i < |vs| && j < |vs| && i != j
    ensures vs[i].va != vs[j].va
  {
    if i < j {
      assert vs[i].va + vs[i].size <= vs[j].va && Proper(vs[i]);
    } else {
      assert vs[j].va + vs[j].size <= vs[i].va && Proper(vs[j]);
    }
  }

  lemma {:induction false} FirstIn(vs: seq<Vma>)
    requires vs != []
    ensures vs[0] in vs
  {}

  /** Areas in order are determined by their set. */
  lemma {:induction false} OrderedUnique(us: seq<Vma>, vs: seq<Vma>)
    requires Ordered(us) && Ordered(vs) && forall v :: v in us <==> v in vs
    ensures us == vs
    decreases |us|
  {
    if us == [] {
      if vs != [] { FirstIn(vs); }
    } else {
      var us', vs' := SameLast(us, vs);
      OrderedUnique(us', vs');
    }
  }

  lemma {:induction false} SameLast(us: seq<Vma>, vs: seq<Vma>) returns (us': seq<Vma>, vs': seq<Vma>)
    requires Ordered(us) && Ordered(vs) && (forall v :: v in us <==> v in vs) && us != []
    ensures us == us' + [us[|us| - 1]] && vs == vs' + [us[|us| - 1]]
    ensures Ordered(us') && Ordered(vs') && forall v :: v in us' <==> v in vs'
  {
    hide Ordered;
    var u := us[|us| - 1];
    assert u in vs;
    var k :| 0 <= k < |vs| && vs[k] == u;
    LastIsLast(us, vs, k);
    us', vs' := us[..|us| - 1], vs[..|vs| - 1];
    InitOrdered(us);
    InitOrdered(vs);
    forall v ensures v in us' <==> v in vs' {
      NotLast(us, v);
      NotLast(vs, v);
    }
  }

  lemma {:induction false} InitOrdered(vs: seq<Vma>)
    requires Ordered(vs) && vs != []
    ensures Ordered(vs[..|vs| - 1])
  {}

  lemma {:induction false} LastIsLast(us: seq<Vma>, vs: seq<Vma>, k: nat)
    requires Ordered(us) && Ordered(vs) && (forall v :: v in us <==> v in vs) && us != [] && k < |vs|
    requires vs[k] == us[|us| - 1]
    ensures k == |vs| - 1
  {
    var w := vs[|vs| - 1];
    assert w in us;
    var i :| 0 <= i < |us| && us[i] == w;
  }

  lemma {:induction false} NotLast(vs: seq<Vma>, v: Vma)
    requires Ordered(vs) && vs != []
    ensures v in vs[..|vs| - 1] <==> v in vs && v != vs[|vs| - 1]
  {
    var w := vs[..|vs| - 1];
    if v in w {
      var i :| 0 <= i < |w| && w[i] == v;
      assert vs[i] == v && vs[i].va + vs[i].size <= vs[|vs| - 1].va && Proper(vs[i]);
    }
    if v in vs && v != vs[|vs| - 1] {
      var i :| 0 <= i < |vs| && vs[i] == v;
      assert w[i] == v;
    }
  }

  // ------------------------------------------------------------ together

  datatype Ledger = Ledger(vs: seq<Vma>, pages: PageMap.Pages, tabs: Tables)

  function Frame(v: Vma): nat
  {
    v.pa / PAGE
  }

  function Frames(mine: set<Vma>): set<nat>
  {
    set v | v in mine :: Frame(v)
  }

  /** Since `w0`, the areas `mine` were added, each on a frame of its own, and one more frame may be taken. */
  ghost predicate Mine(base: nat, w0: Ledger, w: Ledger, mine: set<Vma>, spare: set<nat>)
  {
    && Added(w0.vs, w.vs, mine)
    && Owned(base, w0.pages, w0.tabs, w.pages, w.tabs, Frames(mine) + spare)
    && Injective(mine) && (forall v :: v in mine ==> Frame(v) !in spare)
  }

  /** No two areas share a frame. */
  ghost predicate Injective(mine: set<Vma>)
  {
    forall u, v :: u in mine && v in mine && Frame(u) == Frame(v) ==> u == v
  }

  /** The nodes last for a guard, `pages` pages and a guard, or for as many areas as there are free frames:
      each page mapped needs a node, but also a frame. */
  ghost predicate NodesLast(w: Ledger, pages: nat, nodes: nat)
  {
    |w.vs| + pages + 2 <= nodes || |w.vs| + PageMap.CountFree(w.pages) <= nodes
  }

  /** Since `w0`, `n` pages were mapped, each on a frame that was free. */
  ghost predicate Used(w0: Ledger, w: Ledger, n: nat)
  {
    |w.vs| == |w0.vs| + n && PageMap.CountFree(w.pages) + n <= PageMap.CountFree(w0.pages)
  }

  /** While a frame is left, so is a node. */
  lemma {:induction false} NodeLeft(w0: Ledger, w: Ledger, n: nat, pages: nat, nodes: nat)
    requires NodesLast(w0, pages, nodes) && Used(w0, w, n) && n < pages + 2
    ensures PageMap.CountFree(w.pages) > 0 ==> |w.vs| < nodes
  {}

  /** Everything given back: the areas are as they were, and only tables were added. */
  lemma {:induction false} MineNothing(base: nat, w0: Ledger, w: Ledger)
    requires Mine(base, w0, w, {}, {})
    ensures w.vs == w0.vs && TablesGrew(base, w0.pages, w0.tabs, w.pages, w.tabs)
  {
    OrderedUnique(w.vs, w0.vs);
    assert Frames({}) + {} == {};
    OwnedNothing(base, w0.pages, w0.tabs, w.pages, w.tabs);
  }

  lemma {:induction false} MineStart(base: nat, w: Ledger)
    requires Ordered(w.vs)
    ensures Mine(base, w, w, {}, {})
  {
    assert Frames({}) + {} == {};
  }

  lemma {:induction false} MineTake(base: nat, w0: Ledger, w: Ledger, mine: set<Vma>, p': PageMap.Pages, f: nat)
    requires Mine(base, w0, w, mine, {}) && FrameTakes(base, w.pages, p', f)
    requires forall k :: k in w.tabs ==> FrameTaken(base, w.pages, w.tabs[k])
    ensures Mine(base, w0, w.(pages := p'), mine, {f})
    ensures PageMap.CountFree(w.pages) == PageMap.CountFree(p') + 1
  {
    PageMap.CountFreeUpdate(w.pages, f - base, true);
    OwnedTake(base, w0.pages, w0.tabs, w.pages, w.tabs, Frames(mine) + {}, p', f);
    assert Frames(mine) + {} + {f} == Frames(mine) + {f};
    forall v | v in mine ensures Frame(v) != f { assert Frame(v) in Frames(mine); }
  }

  lemma {:induction false} MineMap(base: nat, w0: Ledger, w: Ledger, mine: set<Vma>, v: Vma, w': Ledger)
    requires Mine(base, w0, w, mine, {Frame(v)}) && Proper(v) && AllClear(w.vs, v.va, v.size)
    requires w'.vs == Inserted(w.vs, LastAtMost(w.vs, v.va) + 1, v)
    requires TablesGrew(base, w.pages, w.tabs, w'.pages, w'.tabs)
    ensures Mine(base, w0, w', mine + {v}, {}) && v !in mine && |w'.vs| == |w.vs| + 1
    ensures PageMap.CountFree(w'.pages) <= PageMap.CountFree(w.pages)
  {
    hide Owned, Added, Injective, Frames, LastAtMost;
    AddedMap(w0.vs, w.vs, mine, v);
    var held := Frames(mine) + {Frame(v)};
    OwnedGrow(base, w0.pages, w0.tabs, w.pages, w.tabs, held, w'.pages, w'.tabs);
    FramesPlus(mine, v);
    FramesApart(mine, v);
    PageMap.CountFreeFalls(w.pages, w'.pages);
  }

  lemma {:induction false} FramesApart(mine: set<Vma>, v: Vma)
    requires Injective(mine) && forall u :: u in mine ==> Frame(u) !in {Frame(v)}
    ensures Injective(mine + {v})
  {}

  lemma {:induction false} FramesPlus(mine: set<Vma>, v: Vma)
    ensures Frames(mine + {v}) + {} == Frames(mine) + {Frame(v)}
  {
    forall f ensures f in Frames(mine + {v}) <==> f in Frames(mine) + {Frame(v)} {
      if f in Frames(mine) {
        var u :| u in mine && Frame(u) == f;
        assert u in mine + {v};
      }
      assert v in mine + {v};
    }
  }

  lemma {:induction false} MineUnmap(base: nat, w0: Ledger, w: Ledger, mine: set<Vma>, k: nat)
    requires Mine(base, w0, w, mine, {}) && k < |w.vs| && w.vs[k] in mine
    ensures Mine(base, w0, w.(vs := Removed(w.vs, k)), mine - {w.vs[k]}, {Frame(w.vs[k])})
  {
    var v := w.vs[k];
    AddedUnmap(w0.vs, w.vs, mine, k);
    FramesPlus(mine - {v}, v);
    assert mine - {v} + {v} == mine;
  }

  lemma {:induction false} MineGive(base: nat, w0: Ledger, w: Ledger, mine: set<Vma>, f: nat)
    requires Mine(base, w0, w, mine, {f})
    ensures base <= f < base + |w.pages| && Mine(base, w0, w.(pages := w.pages[f - base := false]), mine, {})
  {
    OwnedGive(base, w0.pages, w0.tabs, w.pages, w.tabs, Frames(mine) + {f}, f);
    assert Frames(mine) + {f} - {f} == Frames(mine) + {} by {
      forall v | v in mine ensures Frame(v) != f {}
    }
  }

  /** A held frame is no table. */
  lemma {:induction false} MineNoTable(base: nat, w0: Ledger, w: Ledger, mine: set<Vma>, f: nat)
    requires Mine(base, w0, w, mine, {f})
    ensures f !in w.tabs.Values && FrameTaken(base, w.pages, f)
  {
    assert f in Frames(mine) + {f};
  }

  // ------------------------------------------------ several regions

  /** The areas `all` are there, each on a frame of its own that is taken and holds no table. */
  ghost predicate Owns(base: nat, w: Ledger, all: set<Vma>)
  {
    && (forall v :: v in all ==> v in w.vs && FrameTaken(base, w.pages, Frame(v)) && Frame(v) !in w.tabs.Values)
    && Injective(all)
  }

  /** They share no frame, so no area either. */
  ghost predicate Foreign(xs: set<Vma>, ys: set<Vma>)
  {
    forall x, y :: x in xs && y in ys ==> Frame(x) != Frame(y)
  }

  lemma {:induction false} MineOwns(base: nat, w0: Ledger, w: Ledger, mine: set<Vma>)
    requires Mine(base, w0, w, mine, {})
    ensures Owns(base, w, mine)
  {
    forall v | v in mine ensures v in w.vs && FrameTaken(base, w.pages, Frame(v)) && Frame(v) !in w.tabs.Values {
      assert Frame(v) in Frames(mine) + {};
    }
  }

  /** What others own stays theirs while areas are added, and shares nothing with those. */
  lemma {:induction false} MineKeeps(base: nat, w0: Ledger, w: Ledger, mine: set<Vma>, all: set<Vma>)
    requires Mine(base, w0, w, mine, {}) && Owns(base, w0, all)
    ensures Owns(base, w, all) && Foreign(mine, all)
  {
    forall v | v in all ensures v in w.vs && FrameTaken(base, w.pages, Frame(v)) && Frame(v) !in w.tabs.Values {
      forall k | k in w.tabs ensures w.tabs[k] != Frame(v) { assert k in w0.tabs ==> w0.tabs[k] in w0.tabs.Values; }
    }
    forall x, y | x in mine && y in all ensures Frame(x) != Frame(y) {
      assert Frame(x) in Frames(mine) + {};
    }
  }

  lemma {:induction false} GrewKeeps(base: nat, w0: Ledger, w: Ledger, all: set<Vma>)
    requires w.vs == w0.vs && TablesGrew(base, w0.pages, w0.tabs, w.pages, w.tabs) && Owns(base, w0, all)
    ensures Owns(base, w, all)
  {
    forall v | v in all ensures FrameTaken(base, w.pages, Frame(v)) && Frame(v) !in w.tabs.Values {
      forall k | k in w.tabs ensures w.tabs[k] != Frame(v) { assert k in w0.tabs ==> w0.tabs[k] in w0.tabs.Values; }
    }
  }

  /** The areas not in `all`, in the same order. */
  function Fewer(vs: seq<Vma>, all: set<Vma>): (us: seq<Vma>)
    ensures forall v :: v in us <==> v in vs && v !in all
  {
    if vs == [] then [] else Fewer(vs[..|vs| - 1], all) + (if vs[|vs| - 1] in all then [] else [vs[|vs| - 1]])
  }

  lemma {:induction false} FewerOrdered(vs: seq<Vma>, all: set<Vma>)
    requires Ordered(vs)
    ensures Ordered(Fewer(vs, all))
  {
    if vs != [] {
      var n := |vs| - 1;
      var us, v := Fewer(vs[..n], all), vs[n];
      FewerOrdered(vs[..n], all);
      forall i | 0 <= i < |us| ensures us[i].va + us[i].size <= v.va {
        assert us[i] in us;
        var j :| 0 <= j < n && vs[..n][j] == us[i];
      }
    }
  }

  /** The books without the areas `all` and their frames. */
  function Cleared(base: nat, w: Ledger, all: set<Vma>): Ledger
  {
    var fs := Frames(all);
    Ledger(Fewer(w.vs, all), seq(|w.pages|, i requires 0 <= i < |w.pages| => w.pages[i] && base + i !in fs), w.tabs)
  }

  lemma {:induction false} ClearedMine(base: nat, w: Ledger, all: set<Vma>)
    requires Ordered(w.vs) && Owns(base, w, all)
    ensures Mine(base, Cleared(base, w, all), w, all, {})
  {
    hide Ordered, Injective;
    FewerOrdered(w.vs, all);
    var w0 := Cleared(base, w, all);
    assert Frames(all) + {} == Frames(all);
    assert Owned(base, w0.pages, w0.tabs, w.pages, w.tabs, Frames(all));
  }

  /** Giving everything back without touching the tables leaves exactly these books. */
  lemma {:induction false} ClearedExact(base: nat, w: Ledger, all: set<Vma>, w': Ledger)
    requires Owns(base, w, all) && w'.tabs == w.tabs && Mine(base, Cleared(base, w, all), w', {}, {})
    requires forall k :: k in w.tabs ==> FrameTaken(base, w.pages, w.tabs[k])
    ensures w' == Cleared(base, w, all)
  {
    hide Ordered, Injective;
    var w0 := Cleared(base, w, all);
    OrderedUnique(w'.vs, w0.vs);
    assert Frames({}) + {} == {};
    forall i | 0 <= i < |w0.pages| ensures base + i in w.tabs.Values ==> w0.pages[i] {
      if base + i in w.tabs.Values {
        var k :| k in w.tabs && w.tabs[k] == base + i;
        assert base + i !in Frames(all);
      }
    }
  }

  lemma {:induction false} ClearedKeeps(base: nat, w: Ledger, all: set<Vma>, others: set<Vma>)
    requires Owns(base, w, others) && Foreign(all, others)
    ensures Owns(base, Cleared(base, w, all), others)
  {
    forall v | v in others ensures Frame(v) !in Frames(all) && v !in all {}
  }

  // -------------------------------------------------- pages in a row

  /** One page each, from `first` on, on frames that are not frame 0. */
  ghost predicate Row(ds: seq<Vma>, first: nat)
  {
    forall j :: 0 <= j < |ds| ==>
      ds[j].va == first + j * PAGE && ds[j].size == PAGE && ds[j].pa != 0 && ds[j].pa % PAGE == 0
  }

  /** The guard `g` and the pages of the row from `j` on. */
  ghost predicate Rest(mine: set<Vma>, g: Vma, ds: seq<Vma>, j: nat)
  {
    forall v :: v in mine <==> v == g || exists i :: j <= i < |ds| && ds[i] == v
  }

  lemma {:induction false} RestStep(mine: set<Vma>, g: Vma, ds: seq<Vma>, j: nat, first: nat)
    requires Rest(mine, g, ds, j) && Row(ds, first) && j < |ds| && g.va < first
    ensures ds[j] in mine && Rest(mine - {ds[j]}, g, ds, j + 1)
  {
    assert forall i :: j < i < |ds| ==> ds[i].va != ds[j].va;
  }

  lemma {:induction false} RestGrow(mine: set<Vma>, g: Vma, ds: seq<Vma>, v: Vma)
    requires Rest(mine, g, ds, 0)
    ensures Rest(mine + {v}, g, ds + [v], 0)
  {
    var es := ds + [v];
    forall u ensures u in mine + {v} <==> u == g || exists i :: 0 <= i < |es| && es[i] == u {
      if u in mine && u != g {
        var i :| 0 <= i < |ds| && ds[i] == u;
        assert es[i] == u;
      }
      assert es[|ds|] == v;
    }
  }

  lemma {:induction false} RestEnds(mine: set<Vma>, g: Vma, ds: seq<Vma>)
    requires Rest(mine, g, ds, |ds|)
    ensures g in mine && mine - {g} == {}
  {}

  lemma {:induction false} RowGrow(ds: seq<Vma>, first: nat, v: Vma)
    requires Row(ds, first) && v.va == first + |ds| * PAGE && v.size == PAGE && v.pa != 0 && v.pa % PAGE == 0
    ensures Row(ds + [v], first)
  {}

  /** Above the pages mapped so far the region is still clear. */
  lemma {:induction false} StillClear(vs0: seq<Vma>, vs: seq<Vma>, mine: set<Vma>, g: Vma, ds: seq<Vma>, base: nat,
                                      first: nat, total: nat, va: nat)
    requires Added(vs0, vs, mine) && Rest(mine, g, ds, 0) && Row(ds, first)
    requires AllClear(vs0, base, total) && g.va + g.size <= first && base <= va && va + PAGE <= base + total
    requires va == first + |ds| * PAGE
    ensures AllClear(vs, va, PAGE)
  {
    forall i | 0 <= i < |vs| ensures !Intersects(vs[i], va, PAGE) {
      var v := vs[i];
      assert v in vs;
      if v in mine {
        if v != g {
          var j :| 0 <= j < |ds| && ds[j] == v;
        }
      } else {
        var j :| 0 <= j < |vs0| && vs0[j] == v;
      }
    }
  }

  // -------------------------------------------------------- the window

  /** No area lies in free space, and free space is made of pages. */
  ghost predicate FreeClear(vs: seq<Vma>, fs: seq<Extent>, next: nat)
  {
    && (forall i :: 0 <= i < |fs| ==> fs[i].size > 0 && ClearPages(vs, fs[i].va, fs[i].size))
    && VMALLOC_START <= next <= VMALLOC_END && ClearPages(vs, next, VMALLOC_END - next)
  }

  ghost predicate ClearPages(vs: seq<Vma>, va: nat, size: nat)
  {
    va % PAGE == 0 && size % PAGE == 0 && AllClear(vs, va, size)
  }

  lemma {:induction false} NothingClear(vs: seq<Vma>, fs: seq<Extent>, next: nat)
    requires fs == [] && next == VMALLOC_START && AllClear(vs, VMALLOC_START, VMALLOC_END - VMALLOC_START)
    ensures FreeClear(vs, fs, next)
  {}

  lemma {:induction false} ClearPart(vs: seq<Vma>, va: nat, size: nat, a: nat, n: nat)
    requires ClearPages(vs, va, size) && va <= a && a + n <= va + size && a % PAGE == 0 && n % PAGE == 0
    ensures ClearPages(vs, a, n)
  {
    forall i | 0 <= i < |vs| ensures !Intersects(vs[i], a, n) {
      assert !Intersects(vs[i], va, size);
    }
  }

  lemma {:induction false} CutClear(vs: seq<Vma>, fs: seq<Extent>, k: nat, size: nat)
    requires forall i :: 0 <= i < |fs| ==> fs[i].size > 0 && ClearPages(vs, fs[i].va, fs[i].size)
    requires k < |fs| && 0 < size <= fs[k].size && size % PAGE == 0
    ensures ClearPages(vs, fs[k].va, size)
    ensures var gs := Cut(fs, k, size);
      forall i :: 0 <= i < |gs| ==> gs[i].size > 0 && ClearPages(vs, gs[i].va, gs[i].size)
  {
    var e := fs[k];
    ClearPart(vs, e.va, e.size, e.va, size);
    ClearPart(vs, e.va, e.size, e.va + size, e.size - size);
    var gs := Cut(fs, k, size);
    if e.size == size {
      assert forall i :: 0 <= i < |gs| ==> gs[i] == fs[if i < k then i else i + 1];
    } else {
      assert forall i :: 0 <= i < |gs| && i != k ==> gs[i] == fs[i];
    }
  }

  /** What find_free_space hands out is clear, and so is what it leaves. */
  lemma {:induction false} FindClear(vs: seq<Vma>, fs: seq<Extent>, next: nat, size: nat)
    requires FreeClear(vs, fs, next) && 0 < size && size % PAGE == 0 && next + size < TWO64
    requires Find(fs, next, size).va != 0
    ensures var r := Find(fs, next, size); ClearPages(vs, r.va, size) && FreeClear(vs, r.fs, r.next)
  {
    var k := Best(fs, size);
    BestIsSmallest(fs, size);
    if k >= 0 {
      CutClear(vs, fs, k, size);
    } else {
      AddFits(next, size);
      ClearPart(vs, next, VMALLOC_END - next, next, size);
      ClearPart(vs, next, VMALLOC_END - next, next + size, VMALLOC_END - next - size);
    }
  }

  /** Every one of the areas lies in `e`. */
  ghost predicate Inside(all: set<Vma>, e: Extent)
  {
    forall v :: v in all ==> e.va <= v.va && v.va + v.size <= e.va + e.size
  }

  /** Areas inside a live extent stay out of free space. */
  lemma {:induction false} LaidClear(vs0: seq<Vma>, vs: seq<Vma>, all: set<Vma>, e: Extent, fs: seq<Extent>,
                                     live: seq<Extent>, next: nat)
    requires Added(vs0, vs, all) && Inside(all, e) && FreeClear(vs0, fs, next) && Accounted(fs, [e] + live, next)
    ensures FreeClear(vs, fs, next)
  {
    forall k | 0 <= k < |fs| ensures ClearPages(vs, fs[k].va, fs[k].size) {
      forall i | 0 <= i < |vs| ensures !Intersects(vs[i], fs[k].va, fs[k].size) {
        FreeFromOne(vs0, vs, all, e, fs, live, next, k, i);
      }
    }
    forall i | 0 <= i < |vs| ensures !Intersects(vs[i], next, VMALLOC_END - next) {
      TailFromOne(vs0, vs, all, e, fs, live, next, i);
    }
  }

  lemma {:induction false} FreeFromOne(vs0: seq<Vma>, vs: seq<Vma>, all: set<Vma>, e: Extent, fs: seq<Extent>,
                                       live: seq<Extent>, next: nat, k: nat, i: nat)
    requires Added(vs0, vs, all) && Inside(all, e) && FreeClear(vs0, fs, next) && Accounted(fs, [e] + live, next)
    requires k < |fs| && i < |vs|
    ensures !Intersects(vs[i], fs[k].va, fs[k].size)
  {
    var v, f := vs[i], fs[k];
    assert v in vs && ClearPages(vs0, f.va, f.size);
    if v in all {
      var a := if v.va < f.va then f.va else v.va;
      if Contains(f, a) {
        AccountedDisjoint(fs, [e] + live, next, k, 0, a);
      }
    }
  }

  lemma {:induction false} TailFromOne(vs0: seq<Vma>, vs: seq<Vma>, all: set<Vma>, e: Extent, fs: seq<Extent>,
                                       live: seq<Extent>, next: nat, i: nat)
    requires Added(vs0, vs, all) && Inside(all, e) && FreeClear(vs0, fs, next) && Accounted(fs, [e] + live, next)
    requires i < |vs|
    ensures !Intersects(vs[i], next, VMALLOC_END - next)
  {
    var v := vs[i];
    assert v in vs;
    if v in all {
      var a := if v.va < next then next else v.va;
      OwnersPush(live, e, a);
      assert a >= next ==> Owners(fs, a) + Owners([e] + live, a) == 0;
    }
  }

  /** With areas gone, free space is still clear. */
  lemma {:induction false} FewerClear(vs0: seq<Vma>, vs: seq<Vma>, all: set<Vma>, fs: seq<Extent>, next: nat)
    requires Added(vs0, vs, all) && FreeClear(vs, fs, next)
    ensures FreeClear(vs0, fs, next)
  {
    forall k | 0 <= k < |fs| ensures ClearPages(vs0, fs[k].va, fs[k].size) {
      FewerOne(vs0, vs, all, fs[k].va, fs[k].size);
    }
    FewerOne(vs0, vs, all, next, VMALLOC_END - next);
  }

  lemma {:induction false} FewerOne(vs0: seq<Vma>, vs: seq<Vma>, all: set<Vma>, va: nat, size: nat)
    requires Added(vs0, vs, all) && ClearPages(vs, va, size)
    ensures ClearPages(vs0, va, size)
  {
    forall i | 0 <= i < |vs0| ensures !Intersects(vs0[i], va, size) {
      assert vs0[i] in vs;
      var j :| 0 <= j < |vs| && vs[j] == vs0[i];
    }
  }

  /** Where a row of areas lies, no other area does. */
  lemma {:induction false} RowClear(vs0: seq<Vma>, vs: seq<Vma>, all: set<Vma>, g: Vma, ds: seq<Vma>, base: nat)
    requires Added(vs0, vs, all) && Rest(all, g, ds, 0) && Row(ds, base + PAGE) && g.va == base && g.size == PAGE
    ensures AllClear(vs0, base, (|ds| + 1) * PAGE)
  {
    forall i | 0 <= i < |vs0| ensures !Intersects(vs0[i], base, (|ds| + 1) * PAGE) {
      var v := vs0[i];
      var a := if v.va < base then base else v.va;
      if a < base + (|ds| + 1) * PAGE {
        var u := RowAt(g, ds, base, a);
        assert u in all && u in vs && v in vs && u != v;
        Elsewhere(vs, u, v, a);
      }
    }
  }

  /** The area of the row that holds address `a`. */
  lemma {:induction false} RowAt(g: Vma, ds: seq<Vma>, base: nat, a: nat) returns (u: Vma)
    requires Row(ds, base + PAGE) && g.va == base && g.size == PAGE && base <= a < base + (|ds| + 1) * PAGE
    ensures (u == g || exists i :: 0 <= i < |ds| && ds[i] == u) && u.va <= a < u.va + u.size
  {
    var q := (a - base) / PAGE;
    if q == 0 { u := g; } else { u := ds[q - 1]; }
  }

  lemma {:induction false} Elsewhere(vs: seq<Vma>, u: Vma, v: Vma, a: nat)
    requires Ordered(vs) && u in vs && v in vs && u != v && u.va <= a < u.va + u.size
    ensures !(v.va <= a < v.va + v.size)
  {
    var i :| 0 <= i < |vs| && vs[i] == u;
    var j :| 0 <= j < |vs| && vs[j] == v;
    assert i < j || j < i;
  }
}
