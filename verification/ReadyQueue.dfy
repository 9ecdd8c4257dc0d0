/**
 Tasks and the queue of runnable tasks on values (kernel/sched/eevdf.c): a sequence of tasks in
 order of virtual runtime, first come first served among equals. A task pointer is the task's
 index in memory, `NIL` for NULL.
 */
module ReadyQueue {
  import opened Bits
  import opened RedBlackTree

  const NODES: nat := 64

  datatype State = RUNNING | READY | BLOCKED | ZOMBIE

  datatype Task = Task(pid: int, state: State, priority: int, timeSlice: nat, vruntime: nat, x23: nat)

  const NICE_0_LOAD: nat := 1024
  const TIME_SLICE_NS: nat := 4_000_000
  const TARGET_LATENCY: nat := 6_000_000
  const MIN_GRANULARITY: nat := 750_000
  const MAX_TIME_SLICE_NS: nat := 100_000_000

  const NICE_TO_WEIGHT: seq<nat> := [
    88761, 71755, 56483, 46273, 36291, 29154, 23254, 18705, 14949, 11916,
    9548, 7620, 6100, 4904, 3906, 3121, 2501, 1991, 1586, 1277,
    1024, 820, 655, 526, 423, 335, 272, 215, 172, 137,
    110, 87, 70, 56, 45, 36, 29, 23, 18, 15]

  predicate Nice(p: int)
  {
    -20 <= p <= 19
  }

  function Weight(priority: int): (w: nat)
    requires Nice(priority)
    ensures 15 <= w <= 88761
  {
    NICE_TO_WEIGHT[priority + 20]
  }

  /** Nice 0 weighs 1024, the ends of the range 88761 and 15, and each step of nice divides the weight by
      1.2 to 1.28. */
  lemma {:induction false} WeightStep(p: int)
    requires -20 <= p < 19
    ensures 120 * Weight(p + 1) <= 100 * Weight(p) <= 128 * Weight(p + 1)
    ensures Weight(0) == 1024 && Weight(-20) == 88761 && Weight(19) == 15
  {}

  /** A higher nice value weighs less. */
  lemma {:induction false} WeightFalls(p: int, q: int)
    requires Nice(p) && Nice(q) && p < q
    ensures Weight(q) < Weight(p)
    decreases q - p
  {
    WeightStep(q - 1);
    if p < q - 1 { WeightFalls(p, q - 1); }
  }

  /** Every task's fields are in the range of their C types, and its nice value is clamped. */
  ghost predicate InFields(ts: seq<Task>)
  {
    forall t :: 0 <= t < |ts| ==> Nice(ts[t].priority) && ts[t].vruntime < TWO64 && ts[t].x23 < TWO64
  }

  /** The queue: no task twice, in order of virtual runtime, none below the minimum. */
  ghost predicate QueueOk(ts: seq<Task>, q: seq<int>, minV: nat)
  {
    && InRange(q, |ts|) && Distinct(q) && |q| <= NODES
    && (forall i :: 0 <= i < |q| ==> minV <= ts[q[i]].vruntime)
    && (forall i, j :: 0 <= i < j < |q| ==> ts[q[i]].vruntime <= ts[q[j]].vruntime)
  }

  /** How many queued tasks go before a newcomer of virtual runtime `v`: those at or below it. */
  function PlaceAt(ts: seq<Task>, q: seq<int>, v: nat): (k: nat)
    requires InRange(q, |ts|)
    ensures k <= |q|
  {
    if q == [] || v < ts[q[0]].vruntime then 0 else 1 + PlaceAt(ts, q[1..], v)
  }

  function Placed(ts: seq<Task>, q: seq<int>, t: int): seq<int>
    requires InRange(q, |ts|) && 0 <= t < |ts|
  {
    var k := PlaceAt(ts, q, ts[t].vruntime);
    q[..k] + [t] + q[k..]
  }

  /** A task placed in a queue it is in already is there twice. */
  lemma {:induction false} PlacedTwice(ts: seq<Task>, q: seq<int>, t: int)
    requires InRange(q, |ts|) && 0 <= t < |ts| && t in q
    ensures !Distinct(Placed(ts, q, t))
  {
    var k, w := PlaceAt(ts, q, ts[t].vruntime), Placed(ts, q, t);
    var i :| 0 <= i < |q| && q[i] == t;
    assert w[k] == t && w[if i < k then i else i + 1] == t;
  }

  lemma {:induction false} PlaceCuts(ts: seq<Task>, q: seq<int>, v: nat)
    requires InRange(q, |ts|) && forall i, j :: 0 <= i < j < |q| ==> ts[q[i]].vruntime <= ts[q[j]].vruntime
    ensures forall i :: 0 <= i < PlaceAt(ts, q, v) ==> ts[q[i]].vruntime <= v
    ensures forall i :: PlaceAt(ts, q, v) <= i < |q| ==> v < ts[q[i]].vruntime
  {
    if q != [] && ts[q[0]].vruntime <= v {
      var r := q[1..];
      assert forall i :: 0 <= i < |r| ==> r[i] == q[i + 1];
      PlaceCuts(ts, r, v);
      forall i | 0 <= i < |q|
        ensures (i < PlaceAt(ts, q, v) ==> ts[q[i]].vruntime <= v) && (PlaceAt(ts, q, v) <= i ==> v < ts[q[i]].vruntime)
      {
        assert i > 0 ==> q[i] == r[i - 1];
      }
    }
  }

  /** Wherever a queue is cut between those at or below `v` and those above, that is the place. */
  lemma {:induction false} PlaceUnique(ts: seq<Task>, q: seq<int>, v: nat, k: nat)
    requires InRange(q, |ts|) && k <= |q|
    requires forall i :: 0 <= i < k ==> ts[q[i]].vruntime <= v
    requires forall i :: k <= i < |q| ==> v < ts[q[i]].vruntime
    ensures PlaceAt(ts, q, v) == k
    decreases k
  {
    if k > 0 {
      var r := q[1..];
      assert forall i :: 0 <= i < |r| ==> r[i] == q[i + 1];
      PlaceUnique(ts, r, v, k - 1);
    }
  }

  lemma {:induction false} PlacedMembers(q: seq<int>, k: nat, t: int)
    requires k <= |q|
    ensures forall x :: x in q[..k] + [t] + q[k..] <==> x in q || x == t
    ensures Distinct(q) && t !in q ==> Distinct(q[..k] + [t] + q[k..])
  {
    assert q == q[..k] + q[k..];
    var w := q[..k] + [t] + q[k..];
    assert forall i :: 0 <= i < |w| ==> w[i] == if i < k then q[i] else if i == k then t else q[i - 1];
  }

  /** Enqueueing keeps the queue a queue. */
  lemma {:induction false} PlacedOk(ts: seq<Task>, q: seq<int>, minV: nat, t: int)
    requires QueueOk(ts, q, minV) && 0 <= t < |ts| && t !in q && |q| < NODES && minV <= ts[t].vruntime
    ensures QueueOk(ts, Placed(ts, q, t), minV)
    ensures forall x :: x in Placed(ts, q, t) <==> x in q || x == t
    ensures |Placed(ts, q, t)| == |q| + 1
  {
    var v := ts[t].vruntime;
    var k := PlaceAt(ts, q, v);
    PlaceCuts(ts, q, v);
    PlacedMembers(q, k, t);
    SplicedSorted(ts, q, minV, t, k);
  }

  /** A task may stand between those at or below it and those above it. */
  lemma {:induction false} SplicedSorted(ts: seq<Task>, q: seq<int>, minV: nat, t: int, k: nat)
    requires InRange(q, |ts|) && k <= |q| && 0 <= t < |ts| && minV <= ts[t].vruntime
    requires forall i :: 0 <= i < |q| ==> minV <= ts[q[i]].vruntime
    requires forall i, j :: 0 <= i < j < |q| ==> ts[q[i]].vruntime <= ts[q[j]].vruntime
    requires forall i :: 0 <= i < k ==> ts[q[i]].vruntime <= ts[t].vruntime
    requires forall i :: k <= i < |q| ==> ts[t].vruntime < ts[q[i]].vruntime
    ensures var w := q[..k] + [t] + q[k..];
      && InRange(w, |ts|) && (forall i :: 0 <= i < |w| ==> minV <= ts[w[i]].vruntime)
      && (forall i, j :: 0 <= i < j < |w| ==> ts[w[i]].vruntime <= ts[w[j]].vruntime)
  {
    var w := q[..k] + [t] + q[k..];
    forall i | 0 <= i < |w| ensures w[i] == if i < k then q[i] else if i == k then t else q[i - 1] {}
  }

  lemma {:induction false} WithoutInRange(q: seq<int>, n: nat, x: int)
    requires InRange(q, n)
    ensures InRange(Without(q, x), n)
  {
    WithoutMembers(q, x);
    var w := Without(q, x);
    assert forall i :: 0 <= i < |w| ==> w[i] in w;
  }

  lemma {:induction false} WithoutSorted(ts: seq<Task>, q: seq<int>, x: int)
    requires InRange(q, |ts|) && forall i, j :: 0 <= i < j < |q| ==> ts[q[i]].vruntime <= ts[q[j]].vruntime
    ensures InRange(Without(q, x), |ts|) && |Without(q, x)| <= |q|
    ensures forall i, j :: 0 <= i < j < |Without(q, x)| ==>
            ts[Without(q, x)[i]].vruntime <= ts[Without(q, x)[j]].vruntime
  {
    if q != [] {
      var r, w := q[1..], Without(q[1..], x);
      assert forall i :: 0 <= i < |r| ==> r[i] == q[i + 1];
      WithoutSorted(ts, r, x);
      WithoutMembers(r, x);
      forall i | 0 <= i < |w| ensures ts[q[0]].vruntime <= ts[w[i]].vruntime {
        assert w[i] in r;
        var k :| 0 <= k < |r| && r[k] == w[i];
      }
    }
  }

  lemma {:induction false} WithoutOk(ts: seq<Task>, q: seq<int>, minV: nat, x: int)
    requires QueueOk(ts, q, minV)
    ensures QueueOk(ts, Without(q, x), minV)
    ensures forall y :: y in Without(q, x) <==> y in q && y != x
    ensures |Without(q, x)| == |q| - (if x in q then 1 else 0)
  {
    WithoutSorted(ts, q, x);
    WithoutMembers(q, x);
    var w := Without(q, x);
    forall i | 0 <= i < |w| ensures minV <= ts[w[i]].vruntime {
      assert w[i] in q;
    }
    if x in q {
      var k :| 0 <= k < |q| && q[k] == x;
      assert q == q[..k] + [x] + q[k + 1..];
      WithoutMiddle(q[..k], x, q[k + 1..]);
    } else {
      WithoutAbsent(q, x);
    }
  }

  /** Only the virtual runtimes of queued tasks matter. */
  lemma {:induction false} QueueFrame(ts: seq<Task>, ts': seq<Task>, q: seq<int>, minV: nat)
    requires QueueOk(ts, q, minV) && |ts| <= |ts'|
    requires forall i :: 0 <= i < |q| ==> ts'[q[i]].vruntime == ts[q[i]].vruntime
    ensures QueueOk(ts', q, minV)
  {}

  // ------------------------------------------------------------ load

  function LoadOf(ts: seq<Task>, q: seq<int>): nat
    requires InRange(q, |ts|) && InFields(ts)
  {
    if q == [] then 0 else Weight(ts[q[0]].priority) + LoadOf(ts, q[1..])
  }

  lemma {:induction false} LoadSplit(ts: seq<Task>, a: seq<int>, b: seq<int>)
    requires InRange(a, |ts|) && InRange(b, |ts|) && InRange(a + b, |ts|) && InFields(ts)
    ensures LoadOf(ts, a + b) == LoadOf(ts, a) + LoadOf(ts, b)
  {
    if a == [] {
      assert a + b == b;
    } else {
      assert (a + b)[1..] == a[1..] + b;
      LoadSplit(ts, a[1..], b);
    }
  }

  lemma {:induction false} LoadInserted(ts: seq<Task>, a: seq<int>, t: int, b: seq<int>)
    requires InRange(a, |ts|) && InRange(b, |ts|) && 0 <= t < |ts| && InFields(ts)
    ensures InRange(a + [t] + b, |ts|) && InRange(a + b, |ts|)
    ensures LoadOf(ts, a + [t] + b) == LoadOf(ts, a + b) + Weight(ts[t].priority)
  {
    LoadSplit(ts, a, b);
    LoadSplit(ts, [t], b);
    LoadSplit(ts, a, [t] + b);
    assert a + [t] + b == a + ([t] + b);
    assert [t][1..] == [];
  }

  lemma {:induction false} LoadFrame(ts: seq<Task>, ts': seq<Task>, q: seq<int>)
    requires InRange(q, |ts|) && InFields(ts) && |ts| <= |ts'| && InFields(ts')
    requires forall i :: 0 <= i < |q| ==> ts'[q[i]].priority == ts[q[i]].priority
    ensures LoadOf(ts', q) == LoadOf(ts, q)
  {
    if q != [] {
      var r := q[1..];
      assert forall i :: 0 <= i < |r| ==> r[i] == q[i + 1];
      LoadFrame(ts, ts', r);
    }
  }

  /** The load never reaches the width of its 32-bit counter. */
  lemma {:induction false} LoadBound(ts: seq<Task>, q: seq<int>)
    requires InRange(q, |ts|) && InFields(ts)
    ensures 15 * |q| <= LoadOf(ts, q) <= 88761 * |q|
  {
    if q != [] {
      LoadBound(ts, q[1..]);
    }
  }

  // ------------------------------------------------ what the calls compute

  /** kernel/sched/eevdf.c:211-213: never below the minimum. */
  function Clamped(ts: seq<Task>, minV: nat, t: int): (r: seq<Task>)
    requires 0 <= t < |ts|
    ensures |r| == |ts|
  {
    if ts[t].vruntime < minV then ts[t := ts[t].(vruntime := minV)] else ts
  }

  function Elapsed(ts: seq<Task>, t: int, now: nat): nat
    requires 0 <= t < |ts|
  {
    (now - ts[t].x23) % TWO64
  }

  /** What update_curr adds to a task's virtual runtime, in 64-bit arithmetic (kernel/sched/eevdf.c:368-377). */
  function ChargeOf(ts: seq<Task>, q: seq<int>, t: int, now: nat): nat
    requires InFields(ts) && InRange(q, |ts|) && 0 <= t < |ts|
  {
    Fair(Elapsed(ts, t, now), LoadOf(ts, q))
  }

  function Fair(delta: nat, load: nat): nat
  {
    delta * NICE_0_LOAD % TWO64 / (if load == 0 then NICE_0_LOAD else load)
  }

  /** The charge is the 64-bit product of the time and 1024, divided by the load and rounded down. */
  lemma {:induction false} FairShare(delta: nat, load: nat)
    ensures var c, l, p := Fair(delta, load), if load == 0 then 1024 else load, delta * 1024 % TWO64;
      c * l <= p < (c + 1) * l && c < TWO64
  {
    var l, p := if load == 0 then 1024 else load, delta * 1024 % TWO64;
    Quotient(p, l);
  }

  lemma {:induction false} Quotient(p: nat, l: nat)
    requires l > 0
    ensures p / l * l <= p < (p / l + 1) * l && p / l <= p
  {
    var c := p / l;
    assert p == c * l + p % l;
    assert (c + 1) * l == c * l + l;
    MulMonotone(1, l, c);
  }

  function Charged(ts: seq<Task>, q: seq<int>, t: int, now: nat): (r: seq<Task>)
    requires InFields(ts) && InRange(q, |ts|) && 0 <= t < |ts|
    ensures |r| == |ts|
  {
    ts[t := ts[t].(x23 := now, vruntime := Add64(ts[t].vruntime, ChargeOf(ts, q, t, now)))]
  }

  /** What a charge is, from `u` to `v`: the time since the last charge times 1024, as a 64-bit product, over
      the weights queued, or over 1024 if there is none, and rounded down. */
  predicate IsCharge(u: Task, v: Task, load: nat, alone: bool, now: nat)
  {
    var two64 := 0x1_0000_0000_0000_0000;
    var d, c, l := (now - u.x23) % two64, (v.vruntime - u.vruntime) % two64, if alone then 1024 else load;
    c * l <= d * 1024 % two64 < (c + 1) * l && v == u.(x23 := now, vruntime := v.vruntime)
  }

  /** Charging no time at all would change nothing. */
  lemma {:induction false} ChargedIs(ts: seq<Task>, q: seq<int>, t: int, now: nat)
    requires InFields(ts) && InRange(q, |ts|) && 0 <= t < |ts| && now < TWO64
    ensures IsCharge(ts[t], Charged(ts, q, t, now)[t], LoadOf(ts, q), q == [], now)
    ensures Elapsed(ts, t, now) == 0 ==> Charged(ts, q, t, now) == ts
  {
    hide Fair, Add64, LoadOf;
    LoadBound(ts, q);
    FairShare(Elapsed(ts, t, now), LoadOf(ts, q));
    SumBack(ts[t].vruntime, ChargeOf(ts, q, t, now));
  }

  lemma {:induction false} SumBack(v: nat, c: nat)
    requires v < TWO64 && c < TWO64
    ensures (Add64(v, c) - v) % TWO64 == c && Add64(v, 0) == v
  {}

  /** kernel/sched/eevdf.c:387-402, with the 32-bit product. */
  function SliceOf(ts: seq<Task>, q: seq<int>, t: int): (n: nat)
    requires InFields(ts) && InRange(q, |ts|) && 0 <= t < |ts|
    ensures MIN_GRANULARITY <= n <= MAX_TIME_SLICE_NS
  {
    if q == [] then TIME_SLICE_NS
    else ClampSlice(Share(Weight(ts[t].priority), LoadOf(ts, q)))
  }

  /** The product divided by the load and rounded down, but at least 0.75 and at most 100 ms. */
  predicate IsShare(n: nat, product: nat, load: nat)
  {
    && 750_000 <= n <= 100_000_000
    && (750_000 < n ==> n * load <= product) && (n < 100_000_000 ==> product < (n + 1) * load)
  }

  /** What a slice is: 4 ms alone, else the share of the 32-bit product of 6 ms and the weight. */
  predicate IsSlice(n: nat, weight: nat, load: nat, alone: bool)
  {
    if alone then n == 4_000_000 else IsShare(n, 6_000_000 * weight % 0x1_0000_0000, load)
  }

  lemma {:induction false} SliceIs(ts: seq<Task>, q: seq<int>, t: int)
    requires InFields(ts) && InRange(q, |ts|) && 0 <= t < |ts|
    ensures IsSlice(SliceOf(ts, q, t), Weight(ts[t].priority), LoadOf(ts, q), q == [])
  {
    LoadBound(ts, q);
    if q != [] { ShareIs(Weight(ts[t].priority), LoadOf(ts, q)); }
  }

  lemma {:induction false} ShareIs(weight: nat, load: nat)
    requires load > 0
    ensures IsShare(ClampSlice(Share(weight, load)), 6_000_000 * weight % 0x1_0000_0000, load)
  {
    var p := 6_000_000 * weight % 0x1_0000_0000;
    var c := p / load;
    Quotient(p, load);
    if c < 750_000 { MulMonotone(c + 1, 750_001, load); }
    if c > 100_000_000 { MulMonotone(100_000_000, c, load); }
  }

  lemma {:induction false} MulMonotone(a: nat, b: nat, l: nat)
    requires a <= b
    ensures a * l <= b * l
  {}

  /** The product stays below 32 bits exactly from nice 2 on. */
  lemma {:induction false} ProductFitsIff(p: int)
    requires Nice(p)
    ensures 6_000_000 * Weight(p) < TWO32 <==> p >= 2
  {
    if p < 1 { WeightFalls(p, 1); }
    if p > 2 { WeightFalls(2, p); }
    assert Weight(1) == 820 && Weight(2) == 655;
  }

  /** So from nice 2 on the slice is the fair share of 6 ms: the weight over the weights queued. */
  lemma {:induction false} SliceFair(ts: seq<Task>, q: seq<int>, t: int)
    requires InFields(ts) && InRange(q, |ts|) && 0 <= t < |ts| && q != [] && ts[t].priority >= 2
    ensures IsShare(SliceOf(ts, q, t), 6_000_000 * Weight(ts[t].priority), LoadOf(ts, q))
  {
    SliceIs(ts, q, t);
    ProductFitsIff(ts[t].priority);
  }

  /** Six queued tasks of the same nice value as this one leave it 1 ms, as is fair, if and only if the value
      is 2 or more. */
  lemma {:induction false} SixAlikeIff(ts: seq<Task>, q: seq<int>, t: int, p: int)
    requires InFields(ts) && InRange(q, |ts|) && 0 <= t < |ts| && |q| == 6 && ts[t].priority == p
    requires forall i :: 0 <= i < 6 ==> ts[q[i]].priority == p
    ensures IsShare(1_000_000, 6_000_000 * Weight(p), LoadOf(ts, q))
    ensures SliceOf(ts, q, t) == 1_000_000 <==> p >= 2
  {
    LoadAlike(ts, q, p);
    ProductFitsIff(p);
    SliceIs(ts, q, t);
    SixShare(SliceOf(ts, q, t), Weight(p));
  }

  lemma {:induction false} SixShare(n: nat, w: nat)
    requires w > 0 && IsShare(n, 6_000_000 * w % TWO32, 6 * w)
    ensures IsShare(1_000_000, 6_000_000 * w, 6 * w)
    ensures n == 1_000_000 <==> 6_000_000 * w < TWO32
  {
    var l := 6 * w;
    if n < 1_000_000 { MulMonotone(n + 1, 1_000_000, l); }
    if n > 1_000_000 { MulMonotone(1_000_001, n, l); }
  }

  lemma {:induction false} LoadAlike(ts: seq<Task>, q: seq<int>, p: int)
    requires InFields(ts) && InRange(q, |ts|) && Nice(p) && forall i :: 0 <= i < |q| ==> ts[q[i]].priority == p
    ensures LoadOf(ts, q) == |q| * Weight(p)
  {
    hide Weight;
    if q != [] {
      LoadAlike(ts, q[1..], p);
      assert |q| * Weight(p) == (|q| - 1) * Weight(p) + Weight(p);
    }
  }

  function Share(weight: nat, load: nat): nat
  {
    TARGET_LATENCY * weight % TWO32 / (if load == 0 then NICE_0_LOAD else load)
  }

  function ClampSlice(slice: nat): (n: nat)
    ensures MIN_GRANULARITY <= n <= MAX_TIME_SLICE_NS
  {
    if slice < MIN_GRANULARITY then MIN_GRANULARITY
    else if slice > MAX_TIME_SLICE_NS then MAX_TIME_SLICE_NS
    else slice
  }
}
