/**
 The kernel log as values: records, their bytes in the ring, and circular windows of bytes.
 */
module LogRecords {

  const RING: nat := 4096
  const HEADER: nat := 3
  const MAX_PAYLOAD: nat := RING - HEADER - 1

  type Bytes = seq<nat>

  datatype Record = Record(level: nat, payload: Bytes)

  predicate Storable(r: Record)
  {
    r.level < 256 && |r.payload| <= MAX_PAYLOAD && forall i :: 0 <= i < |r.payload| ==> r.payload[i] < 256
  }

  /** The packed, little-endian header: one byte of level, two of length. */
  function Header(level: nat, len: nat): (h: Bytes)
    ensures |h| == HEADER
  {
    [level, len % 256, len / 256]
  }

  function HeaderLevel(h: Bytes): nat
    requires |h| == HEADER
  {
    h[0]
  }

  function HeaderLength(h: Bytes): nat
    requires |h| == HEADER
  {
    h[1] + 256 * h[2]
  }

  function Encoded(r: Record): (b: Bytes)
    ensures |b| == HEADER + |r.payload|
  {
    Header(r.level, |r.payload|) + r.payload
  }

  /** A record's bytes: its level, its length with the low byte first, and the message. */
  lemma {:induction false} EncodedBytes(r: Record)
    requires Storable(r)
    ensures var b, n := Encoded(r), |r.payload|;
      && |b| == 3 + n && b[0] == r.level && b[1] + 256 * b[2] == n && b[3..] == r.payload
      && forall i :: 0 <= i < |b| ==> b[i] < 256
  {}

  function EncodedAll(rs: seq<Record>): Bytes
  {
    if rs == [] then [] else Encoded(rs[0]) + EncodedAll(rs[1..])
  }

  /** Bytes the records occupy: 3 + length each. */
  function Size(rs: seq<Record>): (n: nat)
    ensures n == |EncodedAll(rs)|
  {
    if rs == [] then 0 else HEADER + |rs[0].payload| + Size(rs[1..])
  }

  lemma {:induction false} SizeAppend(rs: seq<Record>, r: Record)
    ensures EncodedAll(rs + [r]) == EncodedAll(rs) + Encoded(r)
    ensures Size(rs + [r]) == Size(rs) + HEADER + |r.payload|
  {
    if rs == [] {
      assert rs + [r] == [r];
      assert EncodedAll([r]) == Encoded(r) + EncodedAll([]);
    } else {
      assert (rs + [r])[1..] == rs[1..] + [r];
      SizeAppend(rs[1..], r);
    }
  }

  /** What is left when the oldest records are dropped until `need` bytes fit (one byte stays unused). */
  function DroppedFor(rs: seq<Record>, need: nat): seq<Record>
  {
    if rs == [] || Size(rs) + need < RING then rs else DroppedFor(rs[1..], need)
  }

  /** It is the shortest prefix of oldest records that goes. */
  lemma {:induction false} DroppedShortest(rs: seq<Record>, need: nat)
    requires need < 4096
    ensures exists k :: 0 <= k <= |rs| && DroppedFor(rs, need) == rs[k..] && Size(rs[k..]) + need < 4096
                        && forall j :: 0 <= j < k ==> Size(rs[j..]) + need >= 4096
  {
    if rs == [] || Size(rs) + need < RING {
      assert rs[0..] == rs;
    } else {
      DroppedShortest(rs[1..], need);
      var k :| 0 <= k <= |rs[1..]| && DroppedFor(rs[1..], need) == rs[1..][k..] && Size(rs[1..][k..]) + need < RING
               && forall j :: 0 <= j < k ==> Size(rs[1..][j..]) + need >= RING;
      assert rs[1..][k..] == rs[k + 1..];
      forall j | 0 <= j < k + 1 ensures Size(rs[j..]) + need >= RING {
        if j == 0 { assert rs[0..] == rs; } else { assert rs[j..] == rs[1..][j - 1..]; }
      }
    }
  }

  // -------------------------------------------------------- circular bytes

  /** A position one turn around at most. */
  function Wrapped(x: nat): nat
  {
    if x < RING then x else x - RING
  }

  lemma {:induction false} AdvanceWraps(p: nat, n: nat)
    requires p < RING && n <= RING
    ensures (p + n) % RING == Wrapped(p + n)
  {}

  /** `n` bytes of the ring from position `p` on, around the end if need be. */
  function Window(s: Bytes, p: nat, n: nat): (w: Bytes)
    requires |s| == RING && p < RING && n <= RING
    ensures |w| == n
  {
    seq(n, i requires 0 <= i < n => s[Wrapped(p + i)])
  }

  /** The ring with `b` written from position `p` on. */
  function Written(s: Bytes, p: nat, b: Bytes): (s': Bytes)
    requires |s| == RING && p < RING && |b| <= RING
    ensures |s'| == RING
  {
    seq(RING, i requires 0 <= i < RING => if Offset(p, i) < |b| then b[Offset(p, i)] else s[i])
  }

  /** How far position `i` lies behind `p`, going round. */
  function Offset(p: nat, i: nat): (d: nat)
    requires p < RING && i < RING
    ensures d < RING && Wrapped(p + d) == i
  {
    if i >= p then i - p else i + RING - p
  }

  lemma {:induction false} WindowSplit(s: Bytes, p: nat, a: nat, b: nat)
    requires |s| == RING && p < RING && a + b <= RING
    ensures Window(s, p, a + b) == Window(s, p, a) + Window(s, Wrapped(p + a), b)
  {
    var l, r := Window(s, p, a + b), Window(s, p, a) + Window(s, Wrapped(p + a), b);
    forall i | 0 <= i < a + b ensures l[i] == r[i] {
      if i >= a { assert Wrapped(Wrapped(p + a) + (i - a)) == Wrapped(p + i); }
    }
  }

  lemma {:induction false} WindowWritten(s: Bytes, p: nat, b: Bytes)
    requires |s| == RING && p < RING && |b| <= RING
    ensures Window(Written(s, p, b), p, |b|) == b
  {
    forall i | 0 <= i < |b| ensures Window(Written(s, p, b), p, |b|)[i] == b[i] {
      assert Offset(p, Wrapped(p + i)) == i;
    }
  }

  /** Writing behind a window leaves it alone as long as both fit. */
  lemma {:induction false} WindowKept(s: Bytes, q: nat, n: nat, b: Bytes)
    requires |s| == RING && q < RING && n + |b| <= RING
    ensures Wrapped(q + n) < RING && Window(Written(s, Wrapped(q + n), b), q, n) == Window(s, q, n)
  {
    var p := Wrapped(q + n);
    forall i | 0 <= i < n ensures Window(Written(s, p, b), q, n)[i] == Window(s, q, n)[i] {
      assert Offset(p, Wrapped(q + i)) >= |b|;
    }
  }

  /** Appending to a window. */
  lemma {:induction false} WindowAppend(s: Bytes, q: nat, n: nat, b: Bytes)
    requires |s| == RING && q < RING && n + |b| < RING
    ensures Window(Written(s, Wrapped(q + n), b), q, n + |b|) == Window(s, q, n) + b
  {
    var p := Wrapped(q + n);
    WindowKept(s, q, n, b);
    WindowSplit(Written(s, p, b), q, n, |b|);
    WindowWritten(s, p, b);
  }

  /** Two writes in a row are one. */
  lemma {:induction false} WrittenTwice(s: Bytes, p: nat, a: Bytes, b: Bytes)
    requires |s| == RING && p < RING && |a| + |b| <= RING
    ensures Wrapped(p + |a|) < RING
    ensures Written(Written(s, p, a), Wrapped(p + |a|), b) == Written(s, p, a + b)
  {
    var q := Wrapped(p + |a|);
    var x, y := Written(Written(s, p, a), q, b), Written(s, p, a + b);
    forall i | 0 <= i < RING ensures x[i] == y[i] {
      assert Offset(p, i) < |a| ==> Offset(q, i) >= |b|;
      assert |a| <= Offset(p, i) < |a| + |b| ==> Offset(q, i) == Offset(p, i) - |a|;
    }
  }
}
