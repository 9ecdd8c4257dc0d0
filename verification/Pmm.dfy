/**
 The physical memory manager of mm/pmm.c: a bitmap of pages and a free counter, changed in place.
 */
module PmmClass {
  import opened Bits
  import opened PageMap

  const PMM_MAX_PAGES: nat := 1048576

  /** `addr` rounded down to a page boundary, and rounded up with the source's 64-bit sum. */
  function PageDown(addr: nat): nat
  {
    addr - addr % PAGE
  }

  function PageUp64(addr: nat): nat
  {
    PageDown(Add64(addr, PAGE - 1))
  }

  lemma {:induction false} BitOfByte(b: nat, j: nat)
    requires b < 256 && j < 8
    ensures Or(b, Pow2(j)) < 256 && AndNot(b, Pow2(j)) < 256
  {
    assert Pow2(8) == 256 by { Pow2Plus(4, 4); assert Pow2(4) == 16; }
    Pow2Monotone(j, 7);
    assert Pow2(8) == 2 * Pow2(7);
    OrWidth(b, Pow2(j), 8);
    AndNotSmaller(b, Pow2(j));
  }

  /** The pages a bitmap describes. */
  function PagesOf(bytes: seq<nat>, n: nat): (m: Pages)
    requires n <= 8 * |bytes|
    ensures |m| == n
  {
    seq(n, i requires 0 <= i < n => Bit(bytes[i / 8], i % 8))
  }

  lemma {:induction false} PagesOfSet(bytes: seq<nat>, n: nat, i: nat)
    requires n <= 8 * |bytes| && i < n
    ensures PagesOf(bytes[i / 8 := Or(bytes[i / 8], Pow2(i % 8))], n) == PagesOf(bytes, n)[i := true]
  {
    var bytes' := bytes[i / 8 := Or(bytes[i / 8], Pow2(i % 8))];
    forall k | 0 <= k < n ensures PagesOf(bytes', n)[k] == PagesOf(bytes, n)[i := true][k] {
      SetOneBit(bytes[i / 8], i % 8, k % 8);
    }
  }

  lemma {:induction false} PagesOfClear(bytes: seq<nat>, n: nat, i: nat)
    requires n <= 8 * |bytes| && i < n
    ensures PagesOf(bytes[i / 8 := AndNot(bytes[i / 8], Pow2(i % 8))], n) == PagesOf(bytes, n)[i := false]
  {
    var bytes' := bytes[i / 8 := AndNot(bytes[i / 8], Pow2(i % 8))];
    forall k | 0 <= k < n ensures PagesOf(bytes', n)[k] == PagesOf(bytes, n)[i := false][k] {
      ClearOneBit(bytes[i / 8], i % 8, k % 8);
    }
  }

  class Pmm {
    const bitmap: array<nat>
    var base: nat
    var size: nat
    var total: nat
    var free: nat

    /** The managed pages: which are taken. */
    ghost function Map(): (m: Pages)
      reads this, bitmap
      requires total <= 8 * bitmap.Length
      ensures |m| == total
    {
      PagesOf(bitmap[..], total)
    }

    ghost predicate Shape()
      reads this, bitmap
    {
      && total <= 8 * bitmap.Length
      && (forall i :: 0 <= i < bitmap.Length ==> bitmap[i] < 256)
      && base % PAGE == 0 && size % PAGE == 0 && base + size < TWO64 && total * PAGE <= size
    }

    /** The counter is exact, and page 0 is never handed out when its address would read as NULL. */
    ghost predicate Valid()
      reads this, bitmap
    {
      && Shape() && free == CountFree(Map())
      && (base == 0 && total > 0 ==> Map()[0])
    }

    predicate TestBit(i: nat)
      reads this, bitmap
      requires i < 8 * bitmap.Length
      ensures i < total <= 8 * bitmap.Length ==> TestBit(i) == Map()[i]
    {
      Bit(bitmap[i / 8], i % 8)
    }

    method SetBit(i: nat)
      requires Shape() && i < total
      modifies bitmap
      ensures Shape() && Map() == old(Map())[i := true]
    {
      PagesOfSet(bitmap[..], total, i);
      BitOfByte(bitmap[i / 8], i % 8);
      bitmap[i / 8] := Or(bitmap[i / 8], Pow2(i % 8));
      assert bitmap[..] == old(bitmap[..])[i / 8 := bitmap[i / 8]];
    }

    method ClearBit(i: nat)
      requires Shape() && i < total
      modifies bitmap
      ensures Shape() && Map() == old(Map())[i := false]
    {
      PagesOfClear(bitmap[..], total, i);
      BitOfByte(bitmap[i / 8], i % 8);
      bitmap[i / 8] := AndNot(bitmap[i / 8], Pow2(i % 8));
      assert bitmap[..] == old(bitmap[..])[i / 8 := bitmap[i / 8]];
    }

    /** mm/pmm.c:432-439: a page that is already free is left alone and not counted twice. */
    method FreeOne(i: nat)
      requires Shape() && free == CountFree(Map()) && i < total
      modifies this`free, bitmap
      ensures Shape() && free == CountFree(Map()) && Map() == old(Map())[i := false]
    {
      CountFreeUpdate(Map(), i, false);
      if !TestBit(i) {
        assert Map()[i := false] == Map();
        return;
      }
      ClearBit(i);
      free := free + 1;
    }

    /** mm/pmm.c:62-66. The guard on the counter never stops a decrement. */
    method TakeOne(i: nat)
      requires Shape() && free == CountFree(Map()) && i < total
      modifies this`free, bitmap
      ensures Shape() && free == CountFree(Map()) && Map() == old(Map())[i := true]
    {
      CountFreeUpdate(Map(), i, true);
      if !TestBit(i) {
        SetBit(i);
        if free > 0 {
          free := free - 1;
        }
      } else {
        assert Map()[i := true] == Map();
      }
    }

    method MarkTaken(first: nat, n: nat)
      requires Shape() && first + n <= total
      modifies bitmap
      ensures Shape() && Map() == Marked(old(Map()), first, first + n, true)
    {
      ghost var m := Map();
      MarkedEmpty(m, first, first, true);
      var j := 0;
      while j < n
        invariant 0 <= j <= n && Shape()
        invariant Map() == Marked(m, first, first + j, true)
      {
        MarkedOneMore(m, first, first + j, true);
        SetBit(first + j);
        j := j + 1;
      }
    }

    /** The scan of mm/pmm.c:385-403: one pass that counts the free pages just behind it. */
    method FindRun(count: nat) returns (start: int)
      requires Shape() && count > 0
      ensures start == FirstFit(Map(), count)
    {
      var run, runStart, i := 0, 0, 0;
      while i < total
        invariant 0 <= i <= total && 0 <= run < count
        invariant run > 0 ==> runStart == i - run
        invariant Scanned(Map(), i, run, count)
      {
        if !TestBit(i) {
          ScanFree(Map(), i, run, count);
          if run == 0 {
            runStart := i;
          }
          run := run + 1;
          if run == count {
            return runStart;
          }
        } else {
          ScanTaken(Map(), i, count);
          run := 0;
        }
        i := i + 1;
      }
      ScanDone(Map(), run, count);
      return -1;
    }

    /** mm/pmm.c:377-407. The result is an address, 0 for NULL. */
    method AllocRun(count: nat) returns (addr: nat)
      requires Valid()
      modifies this`free, bitmap
      ensures Valid()
      ensures addr == 0 <==> count == 0 || FirstFit(old(Map()), count) == -1
      ensures addr == 0 ==> Map() == old(Map())
      ensures addr != 0 ==>
                var s := FirstFit(old(Map()), count);
                && s >= 0 && addr == base + s * PAGE && RunFree(old(Map()), s, count)
                && Map() == Marked(old(Map()), s, s + count, true)
    {
      ghost var m := Map();
      if count == 0 || count > free {
        if count > 0 { TooFew(m, count); }
        return 0;
      }
      var start := FindRun(count);
      if start == -1 {
        return 0;
      }
      FirstFitExact(m, count);
      MarkTaken(start, count);
      free := free - count;
      CountFreeTaken(m, start, count);
      addr := base + start * PAGE;
    }

    /** mm/pmm.c:411. */
    method AllocPage() returns (addr: nat)
      requires Valid()
      modifies this`free, bitmap
      ensures Valid()
      ensures addr == 0 <==> old(free) == 0
      ensures addr == 0 ==> Map() == old(Map()) && free == old(free)
      ensures addr != 0 ==> PageTaken(old(Map()), Map(), base, addr) && free == old(free) - 1
    {
      OnePage(Map());
      addr := AllocRun(1);
      if addr != 0 { PageNumber(base, FirstFit(old(Map()), 1)); }
    }

    /** The loop of mm/pmm.c:430-440. */
    method ClearRange(first: nat, count: nat)
      requires Shape() && free == CountFree(Map())
      modifies this`free, bitmap
      ensures Shape() && free == CountFree(Map())
      ensures Map() == Marked(old(Map()), first, first + count, false)
    {
      ghost var m := Map();
      MarkedEmpty(m, first, first, false);
      var i := 0;
      while i < count && first + i < total
        invariant 0 <= i <= count && (first + i <= total || i == 0) && Shape()
        invariant Map() == Marked(m, first, first + i, false) && free == CountFree(Map())
      {
        MarkedOneMore(m, first, first + i, false);
        FreeOne(first + i);
        i := i + 1;
      }
      MarkedPastEnd(m, first, first + i, first + count, false);
    }

    /** mm/pmm.c:413-443. */
    method FreePages(addr: nat, count: nat)
      requires Valid()
      modifies this`free, bitmap
      ensures Valid()
      ensures addr == 0 || addr < base || addr >= base + size || addr % PAGE != 0 ==> Map() == old(Map())
      ensures addr != 0 && base <= addr < base + size && addr % PAGE == 0 ==>
                Map() == Marked(old(Map()), (addr - base) / PAGE, (addr - base) / PAGE + count, false)
    {
      if addr == 0 || count == 0 {
        if addr >= base { MarkedEmpty(Map(), (addr - base) / PAGE, (addr - base) / PAGE, false); }
        return;
      }
      if addr < base || addr >= base + size {
        return;
      }
      if addr % PAGE != 0 {
        return;
      }
      ClearRange((addr - base) / PAGE, count);
    }

    /** mm/pmm.c:42-68, with its 64-bit sums. */
    method ReserveRange(start: nat, length: nat)
      requires Shape() && free == CountFree(Map()) && start < TWO64 && length < TWO64
      modifies this`free, bitmap
      ensures Shape() && free == CountFree(Map())
      ensures var r := ReservedPages(base, size, total, start, length);
                Map() == Marked(old(Map()), r.0, r.1, true)
    {
      var first, last := Clip(start, length);
      MarkFrom(first, last);
    }

    /** mm/pmm.c:42-60: the pages of the range, none if it lies outside. */
    method Clip(start: nat, length: nat) returns (first: nat, last: nat)
      requires Shape() && start < TWO64 && length < TWO64
      ensures (first, last) == ReservedPages(base, size, total, start, length) && last <= total
    {
      var end, top := Add64(start, length), base + size;
      first, last := 0, 0;
      if length == 0 || end <= base || start >= top {
        return;
      }
      var rstart := if start < base then base else start;
      var rend := if end > top then top else end;
      first := PageIndexDown(base, rstart);
      last := PageIndexUp(base, rend);
      last := if last > total then total else last;
    }

    /** The loop of mm/pmm.c:61-67. */
    method MarkFrom(first: nat, last: nat)
      requires Shape() && free == CountFree(Map()) && last <= total
      modifies this`free, bitmap
      ensures Shape() && free == CountFree(Map())
      ensures Map() == Marked(old(Map()), first, last, true)
    {
      ghost var m := Map();
      MarkedEmpty(m, first, if last < first then last else first, true);
      var i := first;
      while i < last
        invariant first <= i && (i <= last || i == first) && Shape()
        invariant Map() == Marked(m, first, i, true) && free == CountFree(Map())
      {
        MarkedOneMore(m, first, i, true);
        TakeOne(i);
        i := i + 1;
      }
      if first > last { MarkedEmpty(m, first, last, true); }
    }

    /** mm/pmm.c:460-479: recount the bitmap and compare with the counter, with the 64-bit difference. */
    method Check() returns (r: int)
      requires Shape() && free < TWO64
      ensures r == 0 <==> free == CountFree(Map())
      ensures r == 0 || r == -1
    {
      var setCount, i := 0, 0;
      while i < total
        invariant 0 <= i <= total && setCount == i - CountFree(Map()[..i])
      {
        assert Map()[..i + 1][..i] == Map()[..i];
        if TestBit(i) {
          setCount := setCount + 1;
        }
        i := i + 1;
      }
      assert Map()[..total] == Map();
      CountFreeBound(Map());
      var expected := if free <= total then total - free else TWO64 + total - free;
      r := if setCount != expected then -1 else 0;
    }

    /** Every page taken, over the managed range of mm/pmm.c:310-342. */
    constructor (memBase: nat, memSize: nat)
      requires memBase % PAGE == 0 && memSize % PAGE == 0 && memBase + memSize < TWO64
      ensures Shape() && fresh(bitmap) && base == memBase && size == memSize && free == CountFree(Map())
      ensures total == if memSize / 4096 > 1_048_576 then 1_048_576 else memSize / 4096
    {
      bitmap := new nat[PMM_MAX_PAGES / 8](_ => 255);
      base, size := memBase, memSize;
      total := if memSize / PAGE > PMM_MAX_PAGES then PMM_MAX_PAGES else memSize / PAGE;
      free := 0;
      new;
      AllTaken(Map(), bitmap[..]);
    }

    method ReserveAll(rs: seq<Range>)
      requires Shape() && free == CountFree(Map()) && AllIn64(rs)
      modifies this`free, bitmap
      ensures Shape() && free == CountFree(Map())
      ensures TakenFor(base, size, old(Map()), Map(), rs)
    {
      hide TakenFor, ReservedPages, Marked;
      ghost var m := Map();
      TakenForNone(base, size, m);
      var k := 0;
      while k < |rs|
        invariant 0 <= k <= |rs| && Shape() && free == CountFree(Map())
        invariant TakenFor(base, size, m, Map(), rs[..k])
      {
        ghost var was := Map();
        ReserveRange(rs[k].start, rs[k].length);
        TakenForMore(base, size, m, was, Map(), rs, k);
        k := k + 1;
      }
      assert rs[..k] == rs;
    }

    /** mm/pmm.c:344-371: everything free except the given ranges (kernel image, boot stack, devicetree,
        reserved memory, UART) and the first MiB. */
    method Open(rs: seq<Range>)
      requires Shape() && free == CountFree(Map()) && AllIn64(rs)
      modifies this`free, bitmap
      ensures Valid()
      ensures forall i :: 0 <= i < total ==>
                (Map()[i] <==>
                 Reserved(base, size, total, rs, i) || Reserves(base, size, total, Range(base, 0x100000), i))
    {
      ClearRange(0, total);
      ReserveAll(rs);
      ghost var m := Map();
      if base < base + size {
        ReserveRange(base, 0x100000);
      }
      FirstMiB(m, base, size);
    }
  }

  datatype Range = Range(start: nat, length: nat)

  ghost predicate AllIn64(rs: seq<Range>)
  {
    forall k :: 0 <= k < |rs| ==> rs[k].start < TWO64 && rs[k].length < TWO64
  }

  /** Reserving `r` marks page `i`. */
  predicate Reserves(base: nat, size: nat, total: nat, r: Range, i: nat)
    requires base % PAGE == 0 && size % PAGE == 0 && base + size < TWO64
  {
    var p := ReservedPages(base, size, total, r.start, r.length);
    p.0 <= i < p.1
  }

  ghost predicate Reserved(base: nat, size: nat, total: nat, rs: seq<Range>, i: nat)
    requires base % PAGE == 0 && size % PAGE == 0 && base + size < TWO64
  {
    exists k :: 0 <= k < |rs| && Reserves(base, size, total, rs[k], i)
  }

  /** The pages `m` are those of `m0` and those the ranges reserve. */
  ghost predicate TakenFor(base: nat, size: nat, m0: Pages, m: Pages, rs: seq<Range>)
    requires base % PAGE == 0 && size % PAGE == 0 && base + size < TWO64
  {
    |m| == |m0| && forall i :: 0 <= i < |m| ==> (m[i] <==> m0[i] || Reserved(base, size, |m|, rs, i))
  }

  lemma {:induction false} TakenForNone(base: nat, size: nat, m: Pages)
    requires base % PAGE == 0 && size % PAGE == 0 && base + size < TWO64
    ensures TakenFor(base, size, m, m, [])
  {}

  lemma {:induction false} TakenForMore(base: nat, size: nat, m0: Pages, m: Pages, m': Pages, rs: seq<Range>, k: nat)
    requires base % PAGE == 0 && size % PAGE == 0 && base + size < TWO64 && k < |rs|
    requires TakenFor(base, size, m0, m, rs[..k])
    requires var r := ReservedPages(base, size, |m|, rs[k].start, rs[k].length); m' == Marked(m, r.0, r.1, true)
    ensures TakenFor(base, size, m0, m', rs[..k + 1])
  {
    forall i | 0 <= i < |m| ensures m'[i] <==> m0[i] || Reserved(base, size, |m|, rs[..k + 1], i) {
      OneMoreRange(base, size, |m|, rs, k, i);
      assert m'[i] <==> m[i] || Reserves(base, size, |m|, rs[k], i);
    }
  }

  lemma {:induction false} OneMoreRange(base: nat, size: nat, total: nat, rs: seq<Range>, k: nat, i: nat)
    requires base % PAGE == 0 && size % PAGE == 0 && base + size < TWO64 && k < |rs|
    ensures Reserved(base, size, total, rs[..k + 1], i) <==>
            Reserved(base, size, total, rs[..k], i) || Reserves(base, size, total, rs[k], i)
  {
    var s, s' := rs[..k], rs[..k + 1];
    assert s'[k] == rs[k] && forall j :: 0 <= j < k ==> s'[j] == s[j];
  }

  /** After boot a page is taken if and only if it holds a byte of a range that was reserved or lies in
      the first MiB, for ranges that do not wrap. */
  lemma {:induction false} OpenTakesTouched(base: nat, size: nat, total: nat, rs: seq<Range>, i: nat)
    requires base % PAGE == 0 && size % PAGE == 0 && base + size < TWO64 && total * PAGE <= size && i < total
    requires base + 0x100000 < TWO64 && forall k :: 0 <= k < |rs| ==> rs[k].start + rs[k].length < TWO64
    ensures Reserves(base, size, total, Range(base, 0x100000), i) <==> i < 256
    ensures Reserved(base, size, total, rs, i) <==>
            exists k :: 0 <= k < |rs| && Touched(base, i, rs[k].start, rs[k].length)
  {
    ReservedIsTouched(base, size, total, base, 0x100000, i);
    forall k | 0 <= k < |rs|
      ensures Reserves(base, size, total, rs[k], i) <==> Touched(base, i, rs[k].start, rs[k].length)
    {
      ReservedIsTouched(base, size, total, rs[k].start, rs[k].length, i);
    }
  }

  lemma {:induction false} FirstMiB(m: Pages, base: nat, size: nat)
    requires base % PAGE == 0 && size % PAGE == 0 && base + size < TWO64 && |m| * PAGE <= size
    ensures var r := ReservedPages(base, size, |m|, base, 0x100000);
      base == 0 && |m| > 0 ==> Marked(m, r.0, r.1, true)[0]
    ensures size == 0 ==> |m| == 0
  {
    if base == 0 && |m| > 0 { ReservedIsTouched(base, size, |m|, base, 0x100000, 0); }
  }

  lemma {:induction false} AllTaken(m: Pages, bytes: seq<nat>)
    requires |m| <= 8 * |bytes| && m == PagesOf(bytes, |m|) && forall i :: 0 <= i < |bytes| ==> bytes[i] == 255
    ensures CountFree(m) == 0
  {
    forall i | 0 <= i < |m| ensures m[i] { AllOnes(i % 8); }
    CountFreeBound(m);
  }

  lemma {:induction false} AllOnes(k: nat)
    requires k < 8
    ensures Bit(255, k)
  {
    assert Bit(1, 0) && Bit(3, 1) && Bit(3, 0) && Bit(15, 3) && Bit(15, 2);
    assert k <= 3 ==> Bit(255, k);
    assert 4 <= k ==> Bit(255, k) == Bit(127, k - 1) == Bit(63, k - 2) == Bit(31, k - 3) == Bit(15, k - 4);
  }

  /** `addr_to_page` of an address rounded down, or up, to a page. */
  function PageIndexDown(base: nat, addr: nat): nat
    requires base <= addr && base % PAGE == 0
  {
    (PageDown(addr) - base) / PAGE
  }

  function PageIndexUp(base: nat, addr: nat): nat
    requires base <= addr <= PageDown(TWO64 - 1) && base % PAGE == 0
  {
    (PageUp64(addr) - base) / PAGE
  }

  /** The half-open range of pages a reserve marks, as the source computes it. */
  function ReservedPages(base: nat, size: nat, total: nat, start: nat, length: nat): (nat, nat)
    requires base % PAGE == 0 && size % PAGE == 0 && base + size < TWO64
  {
    var end := Add64(start, length);
    if length == 0 || end <= base || start >= base + size then (0, 0)
    else
      var last := PageIndexUp(base, if end > base + size then base + size else end);
      (PageIndexDown(base, if start < base then base else start), if last > total then total else last)
  }

  /** Page `i` holds at least one byte of `start .. start + length`. */
  predicate Touched(base: nat, i: nat, start: nat, length: nat)
  {
    length > 0 && base + i * PAGE < start + length && start < base + (i + 1) * PAGE
  }

  lemma {:induction false} IndexDown(base: nat, addr: nat, i: nat)
    requires base <= addr && base % PAGE == 0
    ensures PageIndexDown(base, addr) <= i <==> addr < base + (i + 1) * PAGE
  {}

  lemma {:induction false} IndexUp(base: nat, addr: nat, i: nat)
    requires base <= addr <= PageDown(TWO64 - 1) && base % PAGE == 0
    ensures i < PageIndexUp(base, addr) <==> base + i * PAGE < addr
  {
    assert Add64(addr, PAGE - 1) == addr + PAGE - 1;
  }

  /** A range that does not wrap reserves exactly the managed pages it touches. */
  lemma {:induction false} ReservedIsTouched(base: nat, size: nat, total: nat, start: nat, length: nat, i: nat)
    requires base % PAGE == 0 && size % PAGE == 0 && base + size < TWO64 && total * PAGE <= size && i < total
    requires start + length < TWO64
    ensures var r := ReservedPages(base, size, total, start, length);
      r.0 <= i < r.1 <==> Touched(base, i, start, length)
  {
    var end := start + length;
    assert Add64(start, length) == end;
    assert (i + 1) * PAGE <= total * PAGE;
    if !(length == 0 || end <= base || start >= base + size) {
      IndexDown(base, if start < base then base else start, i);
      IndexUp(base, if end > base + size then base + size else end, i);
    }
  }

  /** A range whose end wraps around reserves at most one page, so it misses the last managed page. */
  lemma {:induction false} WrappedReserveMisses(base: nat, size: nat, total: nat, start: nat, length: nat)
    requires base % PAGE == 0 && size % PAGE == 0 && base + size < TWO64 && total * PAGE <= size
    requires start < TWO64 && length < TWO64 && start + length >= TWO64 && start + PAGE < base + total * PAGE
    requires total > 0
    ensures Touched(base, total - 1, start, length)
    ensures var r := ReservedPages(base, size, total, start, length); !(r.0 <= total - 1 < r.1)
  {
    var end := start + length - TWO64;
    assert Add64(start, length) == end;
    if !(length == 0 || end <= base || start >= base + size) {
      IndexUp(base, end, total - 1);
    }
  }

  /** For ranges that begin before the last managed page, reserving covers every touched page
      if and only if the end does not wrap. */
  lemma {:induction false} ReserveCoversIff(base: nat, size: nat, total: nat, start: nat, length: nat)
    requires base % PAGE == 0 && size % PAGE == 0 && base + size < TWO64 && total * PAGE <= size
    requires start < TWO64 && length < TWO64 && start + PAGE < base + total * PAGE && total > 0
    ensures (forall i: nat :: i < total && Touched(base, i, start, length) ==>
               var r := ReservedPages(base, size, total, start, length); r.0 <= i < r.1)
            <==> start + length < TWO64
  {
    if start + length < TWO64 {
      forall i: nat | i < total && Touched(base, i, start, length)
        ensures var r := ReservedPages(base, size, total, start, length); r.0 <= i < r.1
      {
        ReservedIsTouched(base, size, total, start, length, i);
      }
    } else {
      WrappedReserveMisses(base, size, total, start, length);
    }
  }

  lemma {:induction false} PageNumber(base: nat, s: nat)
    ensures (base + s * PAGE - base) / PAGE == s && (base + s * PAGE - base) % PAGE == 0
  {}

  lemma {:induction false} MarkedPastEnd(m: Pages, first: nat, k: nat, last: nat, v: bool)
    requires k == last || |m| <= k <= last
    ensures Marked(m, first, k, v) == Marked(m, first, last, v)
  {}

  /** Exactly the page at `addr` went from free to taken. */
  ghost predicate PageTaken(m: Pages, m': Pages, base: nat, addr: nat)
  {
    && addr >= base && (addr - base) % PAGE == 0 && (addr - base) / PAGE < |m|
    && !m[(addr - base) / PAGE] && m' == m[(addr - base) / PAGE := true]
  }

  lemma {:induction false} OnePage(m: Pages)
    ensures CountFree(m) > 0 <==> FirstFit(m, 1) != -1
    ensures FirstFit(m, 1) != -1 ==>
              && 0 <= FirstFit(m, 1) < |m| && !m[FirstFit(m, 1)]
              && Marked(m, FirstFit(m, 1), FirstFit(m, 1) + 1, true) == m[FirstFit(m, 1) := true]
              && CountFree(m[FirstFit(m, 1) := true]) == CountFree(m) - 1
  {
    OneFreePage(m);
    FirstFitExact(m, 1);
    var s := FirstFit(m, 1);
    if s != -1 {
      assert RunFree(m, s, 1);
      CountFreeUpdate(m, s, true);
    }
  }

  lemma {:induction false} TooFew(m: Pages, n: nat)
    requires n > CountFree(m)
    ensures FirstFit(m, n) == -1
  {
    FirstFitExact(m, n);
    if FirstFit(m, n) != -1 { RunWithinFree(m, FirstFit(m, n), n); }
  }

  /** The first `i` pages hold no free run of length `n`, and end in exactly `run` free pages. */
  ghost predicate Scanned(m: Pages, i: nat, run: nat, n: nat)
  {
    && run <= i <= |m| && RunFree(m, i - run, run) && (i - run > 0 ==> m[i - run - 1])
    && forall s: nat :: s + n <= i ==> !RunFree(m, s, n)
  }

  lemma {:induction false} ScanFree(m: Pages, i: nat, run: nat, n: nat)
    requires Scanned(m, i, run, n) && i < |m| && !m[i] && run < n
    ensures run + 1 < n ==> Scanned(m, i + 1, run + 1, n)
    ensures run + 1 == n ==> FirstFit(m, n) == i - run && RunFree(m, i - run, n)
  {
    assert RunFree(m, i - run, run + 1);
    FirstFitExact(m, n);
    if run + 1 < n {
      forall s: nat | s + n <= i + 1 ensures !RunFree(m, s, n) {
        if s + n == i + 1 { assert s <= i - run - 1 < s + n; }
      }
    }
  }

  lemma {:induction false} ScanTaken(m: Pages, i: nat, n: nat)
    requires i < |m| && m[i] && n > 0
    requires forall s: nat :: s + n <= i ==> !RunFree(m, s, n)
    ensures Scanned(m, i + 1, 0, n)
  {
    forall s: nat | s + n <= i + 1 ensures !RunFree(m, s, n) {
      if s + n == i + 1 { assert s <= i < s + n; }
    }
  }

  lemma {:induction false} ScanDone(m: Pages, run: nat, n: nat)
    requires Scanned(m, |m|, run, n) && n > 0
    ensures FirstFit(m, n) == -1
  {
    FirstFitExact(m, n);
  }

}
