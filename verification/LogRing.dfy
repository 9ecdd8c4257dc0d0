/**
 The log ring of kernel/log.c: variable-length records in a circular byte buffer, changed in place.
 */
module LogRingClass {
  import opened LogRecords

  /** The ring holds exactly these records, oldest first, from `tail` on. */
  ghost predicate HoldsRecords(s: Bytes, head: nat, tail: nat, rs: seq<Record>)
  {
    && |s| == RING && head < RING && tail < RING && Size(rs) < RING
    && (forall i :: 0 <= i < |rs| ==> Storable(rs[i]))
    && head == Wrapped(tail + Size(rs))
    && Window(s, tail, Size(rs)) == EncodedAll(rs)
  }

  /** The first record can be read back, and the ring holds the rest behind it. */
  lemma {:induction false} FirstRecord(s: Bytes, head: nat, tail: nat, rs: seq<Record>)
    requires HoldsRecords(s, head, tail, rs) && rs != []
    ensures var len := |rs[0].payload|;
      && Window(s, tail, HEADER) == Header(rs[0].level, len) && HeaderLength(Header(rs[0].level, len)) == len
      && Window(s, Wrapped(tail + HEADER), len) == rs[0].payload
      && HoldsRecords(s, head, Wrapped(tail + HEADER + len), rs[1..])
  {
    hide Window;
    var len, n := |rs[0].payload|, Size(rs[1..]);
    WindowSplit(s, tail, HEADER, len + n);
    WindowSplit(s, Wrapped(tail + HEADER), len, n);
    var h, a := Window(s, tail, HEADER), Window(s, Wrapped(tail + HEADER), len);
    var b := Window(s, Wrapped(tail + HEADER + len), n);
    assert Wrapped(Wrapped(tail + HEADER) + len) == Wrapped(tail + HEADER + len);
    assert h + (a + b) == Header(rs[0].level, len) + rs[0].payload + EncodedAll(rs[1..]);
    ThreeParts(h, a, b, Header(rs[0].level, len), rs[0].payload, EncodedAll(rs[1..]));
  }

  /** The position reached by stepping over the first record with the ring's own arithmetic. */
  lemma {:induction false} SteppedOver(s: Bytes, head: nat, tail: nat, rs: seq<Record>)
    requires HoldsRecords(s, head, tail, rs) && rs != []
    ensures var t := (tail + HEADER) % RING;
      var len := |rs[0].payload|;
      && t < RING && len < RING
      && Window(s, tail, HEADER) == Header(rs[0].level, len) && HeaderLength(Header(rs[0].level, len)) == len
      && Window(s, t, len) == rs[0].payload
      && (t + len) % RING == (tail + (HEADER + len)) % RING
      && HoldsRecords(s, head, (t + len) % RING, rs[1..])
  {
    hide Window;
    FirstRecord(s, head, tail, rs);
    var len := |rs[0].payload|;
    assert Storable(rs[0]);
    AdvanceWraps(tail, HEADER);
    AdvanceWraps(tail, HEADER + len);
    AdvanceWraps(Wrapped(tail + HEADER), len);
  }

  lemma {:induction false} WindowPrefix(s: Bytes, p: nat, n: nat, k: nat)
    requires |s| == RING && p < RING && k <= n <= RING
    ensures Window(s, p, k) == Window(s, p, n)[..k]
  {
    WindowSplit(s, p, k, n - k);
  }

  lemma {:induction false} ThreeParts(h: Bytes, a: Bytes, b: Bytes, h': Bytes, a': Bytes, b': Bytes)
    requires h + (a + b) == h' + a' + b' && |h| == |h'| && |a| == |a'|
    ensures h == h' && a == a' && b == b'
  {
    var x, y := h + (a + b), h' + a' + b';
    assert h == x[..|h|] && h' == y[..|h|];
    assert a == x[|h|..|h| + |a|] && a' == y[|h|..|h| + |a|];
    assert b == x[|h| + |a|..] && b' == y[|h| + |a|..];
  }

  /** Writing a record's bytes at the head appends the record. */
  lemma {:induction false} RecordAppended(s: Bytes, head: nat, tail: nat, rs: seq<Record>, r: Record)
    requires HoldsRecords(s, head, tail, rs) && Storable(r) && Size(rs) + HEADER + |r.payload| < RING
    ensures HoldsRecords(Written(s, head, Encoded(r)), Wrapped(head + HEADER + |r.payload|), tail, rs + [r])
  {
    SizeAppend(rs, r);
    WindowAppend(s, tail, Size(rs), Encoded(r));
    var us := rs + [r];
    assert forall i :: 0 <= i < |us| ==> us[i] == if i < |rs| then rs[i] else r;
  }

  class LogRing {
    const ring: array<nat>
    var head: nat
    var tail: nat
    var level: int
    var inited: bool
    ghost var records: seq<Record>

    ghost predicate Valid()
      reads this, ring
    {
      HoldsRecords(ring[..], head, tail, records)
    }

    /** kernel/log.c:58-65 with the static buffer of line 17; KLOG_INFO is 6. */
    constructor ()
      ensures Valid() && fresh(ring) && records == [] && level == 6 && inited
    {
      ring := new nat[RING](_ => 0);
      head, tail, level, inited, records := 0, 0, 6, true, [];
    }

    /** kernel/log.c:26-32. */
    function Space(): (n: nat)
      requires Valid()
      reads this, ring
      ensures n == 4095 - Size(records)
    {
      if head >= tail then RING - (head - tail) - 1 else tail - head - 1
    }

    method CopyIn(pos: nat, b: Bytes)
      requires ring.Length == RING && pos + |b| <= RING
      modifies ring
      ensures ring[..] == old(ring[..])[..pos] + b + old(ring[..])[pos + |b|..]
    {
      ghost var s := ring[..];
      var i := 0;
      while i < |b|
        invariant 0 <= i <= |b|
        invariant ring[..] == s[..pos] + b[..i] + s[pos + i..]
      {
        ring[pos + i] := b[i];
        assert ring[..] == s[..pos] + (b[..i] + [b[i]]) + s[pos + i + 1..];
        assert b[..i] + [b[i]] == b[..i + 1];
        i := i + 1;
      }
      assert b[..i] == b;
    }

    /** Write `b` at the head, in one piece or two, and advance (kernel/log.c:123-131 and 134-142). */
    method Put(b: Bytes)
      requires ring.Length == RING && head < RING && |b| < RING
      modifies this`head, ring
      ensures ring[..] == Written(old(ring[..]), old(head), b) && head == Wrapped(old(head) + |b|)
    {
      ghost var s := ring[..];
      if RING - head >= |b| {
        CopyIn(head, b);
        PutOne(s, head, b);
      } else {
        var first := RING - head;
        CopyIn(head, b[..first]);
        CopyIn(0, b[first..]);
        PutTwo(s, head, b);
      }
      AdvanceWraps(head, |b|);
      head := (head + |b|) % RING;
    }

    /** Copy `n` bytes out from `p`, in one piece or two (kernel/log.c:43-52, 160-170 and 175-186). */
    method Get(p: nat, n: nat) returns (b: Bytes)
      requires ring.Length == RING && p < RING && n < RING
      ensures b == Window(ring[..], p, n)
    {
      if RING - p >= n {
        b := ring[p..p + n];
        GetOne(ring[..], p, n);
      } else {
        var first := RING - p;
        b := ring[p..p + first] + ring[..n - first];
        GetTwo(ring[..], p, n);
      }
    }

    /** One round of kernel/log.c:40-55: step over the oldest record. */
    method DropOne()
      requires Valid() && records != []
      modifies this`tail, this`records
      ensures Valid() && records == old(records)[1..]
    {
      ghost var s, rs := ring[..], records;
      SteppedOver(s, head, tail, rs);
      var hdr := Get(tail, HEADER);
      var drop := HEADER + HeaderLength(hdr);
      tail := (tail + drop) % RING;
      records := rs[1..];
    }

    /** kernel/log.c:38-56. */
    method DropOldest(need: nat)
      requires Valid() && need < RING
      modifies this`tail, this`records
      ensures Valid() && records == DroppedFor(old(records), need) && Size(records) + need < RING
    {
      while Space() < need
        invariant Valid() && DroppedFor(records, need) == DroppedFor(old(records), need)
        decreases |records|
      {
        DropOne();
      }
    }

    /** kernel/log.c:121-142: header, then payload. */
    method PutRecord(lvl: nat, payload: Bytes)
      requires Valid() && Storable(Record(lvl, payload)) && Size(records) + HEADER + |payload| < RING
      modifies this`head, this`records, ring
      ensures Valid() && records == old(records) + [Record(lvl, payload)]
    {
      hide EncodedAll;
      ghost var s, h, r := ring[..], head, Record(lvl, payload);
      RecordAppended(s, h, tail, records, r);
      var hdr := Header(lvl, |payload|);
      WrittenTwice(s, h, hdr, payload);
      Put(hdr);
      Put(payload);
      records := records + [r];
    }

    /** kernel/log.c:91-146 without the console, for a non-NULL message given as its bytes before the NUL. */
    method WriteStr(lvl: int, msg: Bytes) returns (len: nat)
      requires Valid() && forall i :: 0 <= i < |msg| ==> msg[i] < 256
      modifies this`head, this`tail, this`records, ring
      ensures Valid()
      ensures !inited || lvl > level ==> len == 0 && records == old(records)
      ensures inited && lvl <= level ==>
                && len == (if |msg| > 4092 then 4092 else |msg|)
                && records == DroppedFor(old(records), 3 + len) + [Record(lvl % 256, msg[..len])]
    {
      if !inited {
        return 0;
      }
      if lvl > level {
        return 0;
      }
      len := |msg|;
      if len > MAX_PAYLOAD {
        len := MAX_PAYLOAD;
      }
      var need := HEADER + len;
      if Space() < need {
        DropOldest(need);
      }
      var l := lvl % 256;
      PutRecord(l, msg[..len]);
    }

    /** kernel/log.c:159-186: take the oldest record out, copying at most `room` bytes of it. */
    method TakeRecord(room: nat) returns (lvl: nat, bytes: Bytes)
      requires Valid() && records != []
      modifies this`tail, this`records
      ensures Valid() && records == old(records)[1..] && lvl == old(records)[0].level
      ensures var p := old(records)[0].payload; bytes == p[..if |p| > room then room else |p|]
    {
      hide Window;
      ghost var s, rs := ring[..], records;
      SteppedOver(s, head, tail, rs);
      var hdr := Get(tail, HEADER);
      var t := (tail + HEADER) % RING;
      var len := HeaderLength(hdr);
      var copied := if len > room then room else len;
      bytes := Get(t, copied);
      WindowPrefix(s, t, len, copied);
      lvl := HeaderLevel(hdr);
      tail := (t + len) % RING;
      records := rs[1..];
      assert HoldsRecords(ring[..], head, tail, records);
    }

    /** kernel/log.c:148-193. The level read goes to the second result. */
    method Read(out: array<nat>, outLen: int) returns (copied: nat, lvl: nat)
      requires Valid() && out != ring && outLen <= out.Length
      modifies this`tail, this`records, out
      ensures Valid()
      ensures outLen <= 0 || !inited || old(records) == [] ==>
              copied == 0 && records == old(records) && out[..] == old(out[..])
      ensures outLen > 0 && inited && old(records) != [] ==>
                var r := old(records)[0];
                && copied == (if |r.payload| > outLen - 1 then outLen - 1 else |r.payload|) && lvl == r.level
                && out[..copied] == r.payload[..copied] && out[copied] == 0
                && out[copied + 1..] == old(out[..])[copied + 1..]
                && records == old(records)[1..]
    {
      copied, lvl := 0, 0;
      if outLen <= 0 || !inited {
        return;
      }
      if head == tail {
        return;
      }
      var bytes;
      lvl, bytes := TakeRecord(outLen - 1);
      copied := |bytes|;
      CopyOut(out, bytes);
      out[copied] := 0;
    }

    method CopyOut(out: array<nat>, b: Bytes)
      requires |b| <= out.Length && out != ring
      modifies out
      ensures out[..|b|] == b && out[|b|..] == old(out[..])[|b|..]
    {
      var i := 0;
      while i < |b|
        invariant 0 <= i <= |b| && out[..i] == b[..i] && out[i..] == old(out[..])[i..]
      {
        out[i] := b[i];
        assert out[..i + 1] == out[..i] + [b[i]];
        i := i + 1;
      }
    }
  }

  lemma {:induction false} GetOne(s: Bytes, p: nat, n: nat)
    requires |s| == RING && p < RING && n < RING && n <= RING - p
    ensures s[p..p + n] == Window(s, p, n)
  {
    forall i | 0 <= i < n ensures s[p..p + n][i] == Window(s, p, n)[i] {
      assert Wrapped(p + i) == p + i;
    }
  }

  lemma {:induction false} GetTwo(s: Bytes, p: nat, n: nat)
    requires |s| == RING && p < RING && n < RING && n > RING - p
    ensures s[p..RING] + s[..n - (RING - p)] == Window(s, p, n)
  {
    var first := RING - p;
    var a, c, w := s[p..RING], s[..n - first], Window(s, p, n);
    forall i | 0 <= i < n ensures (a + c)[i] == w[i] {
      if i < first {
        assert (a + c)[i] == a[i] == s[p + i];
      } else {
        assert (a + c)[i] == c[i - first] == s[i - first];
        assert Wrapped(p + i) == i - first;
      }
    }
  }

  lemma {:induction false} PutOne(s: Bytes, head: nat, b: Bytes)
    requires |s| == RING && head < RING && |b| < RING && |b| <= RING - head
    ensures s[..head] + b + s[head + |b|..] == Written(s, head, b)
  {
    var s' := s[..head] + b + s[head + |b|..];
    forall i | 0 <= i < RING ensures s'[i] == Written(s, head, b)[i] {
      assert Offset(head, i) == if i < head then i + RING - head else i - head;
    }
  }

  lemma {:induction false} PutTwo(s: Bytes, head: nat, b: Bytes)
    requires |s| == RING && head < RING && RING - head < |b| < RING
    ensures var first := RING - head;
      var s1 := s[..head] + b[..first] + s[head + first..];
      |s1| == RING && s1[..0] + b[first..] + s1[|b| - first..] == Written(s, head, b)
  {
    var first := RING - head;
    var s1 := s[..head] + b[..first] + s[head + first..];
    var s' := s1[..0] + b[first..] + s1[|b| - first..];
    forall i | 0 <= i < RING ensures s'[i] == Written(s, head, b)[i] {
      assert Offset(head, i) == if i < head then i + first else i - head;
      if i < |b| - first {
        assert s'[i] == b[first + i];
      } else {
        assert s'[i] == s1[i];
      }
    }
  }
}
