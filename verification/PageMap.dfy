/**
 The physical page allocator of mm/pmm.c on values: a map saying of every managed page
 whether it is taken, first-fit allocation, and what every run of reserve, allocate and
 free keeps.
 */
module PageMap {

  /** `m[i]` says page `i` is taken. */
  type Pages = seq<bool>

  predicate RunFree(m: Pages, start: nat, n: nat)
  {
    start + n <= |m| && forall i :: start <= i < start + n ==> !m[i]
  }

  /** The lowest run of `n` free pages at or after `from`, or -1. */
  function FitFrom(m: Pages, n: nat, from: nat): int
    decreases |m| - from
  {
    if from + n > |m| || from >= |m| then -1
    else if RunFree(m, from, n) then from
    else FitFrom(m, n, from + 1)
  }

  function FirstFit(m: Pages, n: nat): int
  {
    FitFrom(m, n, 0)
  }

  function CountFree(m: Pages): nat
  {
    if m == [] then 0 else (if m[|m| - 1] then 0 else 1) + CountFree(m[..|m| - 1])
  }

  /** Pages `first .. last` set to `v`. */
  function Marked(m: Pages, first: nat, last: nat, v: bool): (r: Pages)
    ensures |r| == |m|
  {
    seq(|m|, i requires 0 <= i < |m| => if first <= i < last then v else m[i])
  }

  // --------------------------------------------------------- first fit

  lemma {:induction false} FitFromIsLowest(m: Pages, n: nat, from: nat, start: nat)
    requires n > 0 && from <= start && RunFree(m, start, n)
    ensures from <= FitFrom(m, n, from) <= start && RunFree(m, FitFrom(m, n, from), n)
    decreases start - from
  {
    if !RunFree(m, from, n) { FitFromIsLowest(m, n, from + 1, start); }
  }

  lemma {:induction false} FitFromFound(m: Pages, n: nat, from: nat)
    requires FitFrom(m, n, from) != -1
    ensures from <= FitFrom(m, n, from) && RunFree(m, FitFrom(m, n, from), n)
    decreases |m| - from
  {
    if !RunFree(m, from, n) { FitFromFound(m, n, from + 1); }
  }

  /** First fit fails exactly when there is no run, and finds the lowest one otherwise. */
  lemma {:induction false} FirstFitExact(m: Pages, n: nat)
    requires n > 0
    ensures FirstFit(m, n) == -1 <==> forall start: nat :: !RunFree(m, start, n)
    ensures FirstFit(m, n) != -1 ==> FirstFit(m, n) >= 0 && RunFree(m, FirstFit(m, n), n)
    ensures forall start: nat :: RunFree(m, start, n) ==> 0 <= FirstFit(m, n) <= start
  {
    forall start: nat | RunFree(m, start, n)
      ensures 0 <= FirstFit(m, n) <= start
    {
      FitFromIsLowest(m, n, 0, start);
    }
    if FirstFit(m, n) != -1 { FitFromFound(m, n, 0); }
  }

  // ---------------------------------------------------------- counting

  lemma {:induction false} CountFreeSlice(m: Pages, k: nat)
    requires k <= |m|
    ensures CountFree(m) == CountFree(m[..k]) + CountFree(m[k..])
    decreases |m|
  {
    if k == |m| {
      assert m[..k] == m;
    } else {
      var w := m[..|m| - 1];
      CountFreeSlice(w, k);
      assert w[..k] == m[..k] && w[k..] == m[k..][..|m| - k - 1];
    }
  }

  lemma {:induction false} CountFreeBound(m: Pages)
    ensures CountFree(m) <= |m|
    ensures (forall i :: 0 <= i < |m| ==> !m[i]) ==> CountFree(m) == |m|
    ensures (forall i :: 0 <= i < |m| ==> m[i]) ==> CountFree(m) == 0
  {
    if m != [] { CountFreeBound(m[..|m| - 1]); }
  }

  /** Taking pages never raises the free count. */
  lemma {:induction false} CountFreeFalls(m: Pages, m': Pages)
    requires |m'| == |m| && forall i :: 0 <= i < |m| && m[i] ==> m'[i]
    ensures CountFree(m') <= CountFree(m)
  {
    if m != [] { CountFreeFalls(m[..|m| - 1], m'[..|m| - 1]); }
  }

  /** A run of free pages cannot be longer than the free count: the early exit of the allocator is sound. */
  lemma {:induction false} RunWithinFree(m: Pages, start: nat, n: nat)
    requires RunFree(m, start, n)
    ensures n <= CountFree(m)
  {
    CountFreeSlice(m, start + n);
    var p := m[..start + n];
    CountFreeSlice(p, start);
    CountFreeBound(p[start..]);
  }

  lemma {:induction false} CountFreeUpdate(m: Pages, i: nat, v: bool)
    requires i < |m|
    ensures CountFree(m[i := v]) == CountFree(m) + (if m[i] then 1 else 0) - (if v then 1 else 0)
  {
    if i == |m| - 1 {
      assert m[i := v][..i] == m[..i];
    } else {
      assert m[i := v][..|m| - 1] == m[..|m| - 1][i := v];
      CountFreeUpdate(m[..|m| - 1], i, v);
    }
  }

  lemma {:induction false} MarkedOneMore(m: Pages, first: nat, last: nat, v: bool)
    requires first <= last < |m|
    ensures Marked(m, first, last + 1, v) == Marked(m, first, last, v)[last := v]
    ensures Marked(m, first, last, v)[last] == m[last]
  {}

  lemma {:induction false} MarkedEmpty(m: Pages, first: nat, last: nat, v: bool)
    requires last <= first
    ensures Marked(m, first, last, v) == m
  {}

  /** Taking a free run takes exactly its length from the free count. */
  lemma {:induction false} CountFreeTaken(m: Pages, start: nat, n: nat)
    requires RunFree(m, start, n)
    ensures CountFree(Marked(m, start, start + n, true)) == CountFree(m) - n
  {
    if n == 0 {
      MarkedEmpty(m, start, start, true);
    } else {
      CountFreeTaken(m, start, n - 1);
      MarkedOneMore(m, start, start + n - 1, true);
      CountFreeUpdate(Marked(m, start, start + n - 1, true), start + n - 1, true);
    }
  }

  lemma {:induction false} OneFreePage(m: Pages)
    ensures CountFree(m) > 0 <==> FirstFit(m, 1) != -1
  {
    FirstFitExact(m, 1);
    if CountFree(m) > 0 {
      var i := SomeFree(m);
      assert RunFree(m, i, 1);
    } else if FirstFit(m, 1) != -1 {
      RunWithinFree(m, FirstFit(m, 1), 1);
    }
  }

  lemma {:induction false} SomeFree(m: Pages) returns (i: nat)
    requires CountFree(m) > 0
    ensures i < |m| && !m[i]
  {
    if !m[|m| - 1] { i := |m| - 1; } else { i := SomeFree(m[..|m| - 1]); }
  }

  // -------------------------------------------------------------- runs

  datatype Op = Reserve(first: nat, last: nat) | Alloc(n: nat) | Free(first: nat, n: nat)

  datatype Lease = Lease(start: nat, n: nat)

  /** The allocator's state as its callers see it: the pages, what was handed out and has not been
      freed since (not even in part), and the reserved pages nobody freed. */
  datatype World = World(m: Pages, live: set<Lease>, reserved: set<nat>)

  predicate Within(p: nat, first: nat, last: nat)
  {
    first <= p < last
  }

  predicate Touches(e: Lease, first: nat, last: nat)
  {
    e.start < last && first < e.start + e.n
  }

  function Step(w: World, op: Op): World
  {
    match op
    case Reserve(first, last) =>
      w.(m := Marked(w.m, first, last, true),
         reserved := w.reserved + (set p: nat | 0 <= p < |w.m| && Within(p, first, last)))
    case Alloc(n) =>
      var s := FirstFit(w.m, n);
      if n == 0 || s < 0 then w
      else w.(m := Marked(w.m, s, s + n, true), live := w.live + {Lease(s, n)})
    case Free(first, n) =>
      w.(m := Marked(w.m, first, first + n, false),
         live := (set e | e in w.live && !Touches(e, first, first + n)),
         reserved := (set p | p in w.reserved && !Within(p, first, first + n)))
  }

  function Run(w: World, ops: seq<Op>): World
    decreases |ops|
  {
    if ops == [] then w else Run(Step(w, ops[0]), ops[1..])
  }

  predicate Taken(m: Pages, e: Lease)
  {
    e.start + e.n <= |m| && forall i :: e.start <= i < e.start + e.n ==> m[i]
  }

  predicate Disjoint(e: Lease, f: Lease)
  {
    e.start + e.n <= f.start || f.start + f.n <= e.start
  }

  /** Every live allocation is taken, no two overlap, and every reserved page is taken. */
  ghost predicate Sound(w: World)
  {
    && (forall e :: e in w.live ==> Taken(w.m, e) && e.n > 0)
    && (forall e, f :: e in w.live && f in w.live && e != f ==> Disjoint(e, f))
    && (forall p :: p in w.reserved ==> p < |w.m| && w.m[p])
  }

  /** A new allocation overlaps no live one. */
  lemma {:induction false} AllocDisjoint(w: World, n: nat, e: Lease)
    requires Sound(w) && n > 0 && FirstFit(w.m, n) >= 0 && e in w.live
    ensures Disjoint(e, Lease(FirstFit(w.m, n), n))
  {
    FirstFitExact(w.m, n);
    var s := FirstFit(w.m, n);
    var i := if e.start > s then e.start else s;
    assert e.start <= i < e.start + e.n ==> w.m[i];
    assert s <= i < s + n ==> !w.m[i];
  }

  lemma {:induction false} StepSound(w: World, op: Op)
    requires Sound(w)
    ensures Sound(Step(w, op)) && |Step(w, op).m| == |w.m|
  {
    if op.Alloc? && op.n != 0 && FirstFit(w.m, op.n) >= 0 {
      FirstFitExact(w.m, op.n);
      forall e | e in w.live ensures Disjoint(e, Lease(FirstFit(w.m, op.n), op.n)) {
        AllocDisjoint(w, op.n, e);
      }
    }
  }

  /** Whatever is reserved, allocated and freed, in any order: live allocations never overlap, and
      everything live or reserved is taken. */
  lemma {:induction false} RunSound(w: World, ops: seq<Op>)
    requires Sound(w)
    ensures Sound(Run(w, ops)) && |Run(w, ops).m| == |w.m|
    decreases |ops|
  {
    if ops != [] {
      StepSound(w, ops[0]);
      RunSound(Step(w, ops[0]), ops[1..]);
    }
  }

  /** A reserved page stays reserved, and outside every later allocation, over any run that does not free it. */
  lemma {:induction false} ReservedUntilFreed(w: World, ops: seq<Op>, p: nat)
    requires Sound(w) && p in w.reserved && (forall e :: e in w.live ==> !Within(p, e.start, e.start + e.n))
    requires forall op :: op in ops && op.Free? ==> !Within(p, op.first, op.first + op.n)
    ensures p in Run(w, ops).reserved
    ensures forall e :: e in Run(w, ops).live ==> !Within(p, e.start, e.start + e.n)
    decreases |ops|
  {
    if ops != [] {
      var w' := Step(w, ops[0]);
      StepSound(w, ops[0]);
      assert ops[0] in ops;
      if ops[0].Alloc? && ops[0].n > 0 { FirstFitExact(w.m, ops[0].n); }
      ReservedUntilFreed(w', ops[1..], p);
    }
  }
}
