/**
 What page-table entries say: the frame in bits 12 to 47 and the attribute bits around it
 (VMSAv8-64 level 3 page descriptors, Arm Architecture Reference Manual, chapter D8).
 */
module Descriptors {
  import opened Bits
  import opened PageTables

  const PTE_PAGE: nat := 2
  const PTE_RO: nat := 0x80
  const PTE_SH_INNER: nat := 0x300
  const ATTR_NORMAL: nat := 8
  const PTE_PXN: nat := 0x20_0000_0000_0000
  const PTE_UXN: nat := 0x40_0000_0000_0000

  // Bit numbers of the VMM_ATTR flags (include/mm/vmm.h:10-17).
  const VMM_W: nat := 1
  const VMM_DEVICE: nat := 3
  const VMM_UXN: nat := 5
  const VMM_PXN: nat := 6

  /** What a mapped page's entry holds (mm/mmu.c:70 and 246-247). */
  function PteEntry(pa: nat, attrs: nat): nat
  {
    Or(Or(Or(pa - pa % PAGE, attrs), PTE_AF), PTE_VALID)
  }

  /** mm/vmm.c:387-397 and 468-478. */
  function PteAttrs(attrs: nat): nat
  {
    var a := Or(Or(PTE_PAGE, PTE_AF), PTE_SH_INNER);
    var a := Or(a, if Bit(attrs, VMM_DEVICE) then 0 else ATTR_NORMAL);
    var a := Or(a, if Bit(attrs, VMM_W) then 0 else PTE_RO);
    var a := Or(a, if Bit(attrs, VMM_UXN) then PTE_UXN else 0);
    Or(a, if Bit(attrs, VMM_PXN) then PTE_PXN else 0)
  }

  /** The output address field: bits 12 to 47. */
  function OutFrame(e: nat): nat
  {
    Field(e, 12, 36)
  }

  /** A valid page descriptor for frame `f`, as far as 48 bits of address go. */
  predicate MapsTo(e: nat, f: nat)
  {
    Bit(e, 0) && Bit(e, 1) && OutFrame(e) == f % 0x10_0000_0000
  }

  lemma {:induction false} OutFrameIsDivision(e: nat)
    ensures OutFrame(e) == (e / PAGE) % 0x10_0000_0000
  {
    FieldIsArithmetic(e, 12, 36);
    Pow2Twelve();
    Pow2Plus(12, 24);
    Pow2Plus(12, 12);
  }

  lemma {:induction false} Pow2Twelve()
    ensures Pow2(12) == PAGE
  {
    assert Pow2(6) == 64;
    Pow2Plus(6, 6);
  }

  lemma {:induction false} OutFrameOr(a: nat, b: nat)
    ensures OutFrame(b) == 0 ==> OutFrame(Or(a, b)) == OutFrame(a)
  {
    FieldOr(a, b, 12, 36);
    assert Or(OutFrame(a), 0) == OutFrame(a);
  }

  lemma {:induction false} SmallOutside(w: nat)
    requires w < PAGE
    ensures OutFrame(w) == 0
  {
    BeyondField(w, 0, w);
  }

  /** Bits below and above the address field are not part of it. */
  lemma {:induction false} BeyondField(w: nat, k: nat, low: nat)
    requires w == 0x1_0000_0000_0000 * k + low && low < PAGE
    ensures OutFrame(w) == 0
  {
    OutFrameIsDivision(w);
    DivUnique(w, PAGE, 0x10_0000_0000 * k, low);
    DivUnique(0x10_0000_0000 * k, 0x10_0000_0000, k, 0);
  }

  /** The execute-never flags lie above the address field. */
  lemma {:induction false} HighOutside()
    ensures OutFrame(PTE_UXN) == 0 && OutFrame(PTE_PXN) == 0
  {
    BeyondField(PTE_UXN, 64, 0);
    BeyondField(PTE_PXN, 32, 0);
  }

  /** None of the attribute flags reaches into the address field. */
  lemma {:induction false} PteAttrsOutside(attrs: nat)
    ensures OutFrame(PteAttrs(attrs)) == 0 && Bit(PteAttrs(attrs), 1)
  {
    SmallOutside(0);
    SmallOutside(PTE_PAGE);
    SmallOutside(PTE_AF);
    SmallOutside(PTE_SH_INNER);
    SmallOutside(ATTR_NORMAL);
    SmallOutside(PTE_RO);
    HighOutside();
    assert Bit(PTE_PAGE, 1);
    var f1 := if Bit(attrs, VMM_DEVICE) then 0 else ATTR_NORMAL;
    var f2 := if Bit(attrs, VMM_W) then 0 else PTE_RO;
    var f3 := if Bit(attrs, VMM_UXN) then PTE_UXN else 0;
    var f4 := if Bit(attrs, VMM_PXN) then PTE_PXN else 0;
    OrAllOutside(PTE_PAGE, PTE_AF, PTE_SH_INNER, f1, f2, f3, f4);
  }

  lemma {:induction false} OrAllOutside(a: nat, b: nat, c: nat, d: nat, e: nat, f: nat, g: nat)
    requires OutFrame(a) == 0 && OutFrame(b) == 0 && OutFrame(c) == 0 && OutFrame(d) == 0
    requires OutFrame(e) == 0 && OutFrame(f) == 0 && OutFrame(g) == 0 && Bit(a, 1)
    ensures var w := Or(Or(Or(Or(Or(Or(a, b), c), d), e), f), g); OutFrame(w) == 0 && Bit(w, 1)
  {
    KeepsOutside(a, b);
    var w1 := Or(a, b);
    KeepsOutside(w1, c);
    var w2 := Or(w1, c);
    KeepsOutside(w2, d);
    var w3 := Or(w2, d);
    KeepsOutside(w3, e);
    var w4 := Or(w3, e);
    KeepsOutside(w4, f);
    KeepsOutside(Or(w4, f), g);
  }

  lemma {:induction false} KeepsOutside(a: nat, b: nat)
    requires OutFrame(a) == 0 && OutFrame(b) == 0 && Bit(a, 1)
    ensures OutFrame(Or(a, b)) == 0 && Bit(Or(a, b), 1)
  {
    OutFrameOr(a, b);
    BitOr(a, b, 1);
  }

  lemma {:induction false} PteEntryBits(b: nat, a: nat)
    requires Bit(a, 1)
    ensures Bit(Or(Or(Or(b, a), PTE_AF), PTE_VALID), 0) && Bit(Or(Or(Or(b, a), PTE_AF), PTE_VALID), 1)
  {
    BitOr(b, a, 1);
    BitOr(Or(b, a), PTE_AF, 1);
    BitOr(Or(Or(b, a), PTE_AF), PTE_VALID, 1);
    BitOr(Or(Or(b, a), PTE_AF), PTE_VALID, 0);
    assert Bit(PTE_VALID, 0);
  }

  lemma {:induction false} PteEntryFrame(b: nat, a: nat)
    requires OutFrame(a) == 0
    ensures OutFrame(Or(Or(Or(b, a), PTE_AF), PTE_VALID)) == OutFrame(b)
  {
    SmallOutside(PTE_AF);
    SmallOutside(PTE_VALID);
    OutFrameOr(b, a);
    OutFrameOr(Or(b, a), PTE_AF);
    OutFrameOr(Or(Or(b, a), PTE_AF), PTE_VALID);
  }

  /** Entries written with attributes of the VMM keep the address they were given. */
  lemma {:induction false} PteEntryMaps(x: nat, attrs: nat)
    ensures MapsTo(PteEntry(x, PteAttrs(attrs)), x / PAGE)
  {
    PteAttrsOutside(attrs);
    PteEntryBits(x - x % PAGE, PteAttrs(attrs));
    PteEntryFrame(x - x % PAGE, PteAttrs(attrs));
    OutFrameIsDivision(x - x % PAGE);
    assert (x - x % PAGE) / PAGE == x / PAGE;
  }

  /** Rewriting the attributes of an entry keeps its frame. */
  lemma {:induction false} UpdateKeepsFrame(e: nat, f: nat, attrs: nat)
    requires MapsTo(e, f)
    ensures MapsTo(PteEntry(e, PteAttrs(attrs)), f)
  {
    PteEntryMaps(e, attrs);
    OutFrameIsDivision(e);
  }

  /** An execute-never bit (53 or 54) of a rewritten entry is the requested one if and only if it was
      clear before or is requested: the old bit is never dropped. */
  lemma {:induction false} ExecuteNeverSticks(e: nat, attrs: nat, k: nat)
    requires 12 <= k
    ensures Bit(PteEntry(e, attrs), k) <==> Bit(e, k) || Bit(attrs, k)
    ensures (Bit(PteEntry(e, attrs), k) <==> Bit(attrs, k)) <==> !Bit(e, k) || Bit(attrs, k)
  {
    var b := e - e % PAGE;
    BitOr(b, attrs, k);
    BitOr(Or(b, attrs), PTE_AF, k);
    BitOr(Or(Or(b, attrs), PTE_AF), PTE_VALID, k);
    BitAligned(e, k);
    BitSmall(PTE_AF, k);
    BitSmall(PTE_VALID, k);
  }

  lemma {:induction false} BitIsShr(w: nat, k: nat)
    ensures Bit(w, k) <==> Shr(w, k) % 2 == 1
    decreases k
  {
    if k > 0 { BitIsShr(w / 2, k - 1); }
  }

  lemma {:induction false} ShrSplit(w: nat, j: nat, k: nat)
    ensures Shr(w, j + k) == Shr(Shr(w, j), k)
    decreases j
  {
    if j > 0 { ShrSplit(w / 2, j - 1, k); }
  }

  lemma {:induction false} BitAbove(w: nat, k: nat)
    requires 12 <= k
    ensures Bit(w, k) <==> Bit(w / PAGE, k - 12)
  {
    BitIsShr(w, k);
    BitIsShr(w / PAGE, k - 12);
    ShrSplit(w, 12, k - 12);
    ShrIsDivision(w, 12);
    Pow2Twelve();
  }

  lemma {:induction false} BitAligned(w: nat, k: nat)
    requires 12 <= k
    ensures Bit(w - w % PAGE, k) <==> Bit(w, k)
  {
    BitAbove(w, k);
    BitAbove(w - w % PAGE, k);
  }

  lemma {:induction false} BitSmall(w: nat, k: nat)
    requires 12 <= k && w < PAGE
    ensures !Bit(w, k)
  {
    BitAbove(w, k);
    BitZero(k - 12);
  }

  // ------------------------------------------------------------- flags

  lemma {:induction false} FlagPowers()
    ensures PTE_VALID == Pow2(0) && PTE_PAGE == Pow2(1) && ATTR_NORMAL == Pow2(3) && PTE_RO == Pow2(7)
    ensures PTE_AF == Pow2(10) && PTE_SH_INNER == Or(Pow2(8), Pow2(9))
  {
    assert Pow2(3) == 8 && Pow2(7) == 128 && Pow2(8) == 256 && Pow2(9) == 512;
    assert Or(256, 512) == 768;
    assert Pow2(10) == 1024;
  }

  lemma {:induction false} HighPowers()
    ensures PTE_PXN == Pow2(53) && PTE_UXN == Pow2(54)
  {
    Pow2Twelve();
    Pow2Plus(12, 12);
    Pow2Plus(24, 24);
    Pow2Plus(48, 5);
    Pow2Plus(48, 6);
    assert Pow2(5) == 32 && Pow2(6) == 64;
  }

  lemma {:induction false} OrBits(a: nat, b: nat, c: nat, d: nat, e: nat, k: nat)
    ensures Bit(Or(Or(Or(Or(a, b), c), d), e), k) <==> Bit(a, k) || Bit(b, k) || Bit(c, k) || Bit(d, k) || Bit(e, k)
  {
    BitOr(a, b, k);
    BitOr(Or(a, b), c, k);
    BitOr(Or(Or(a, b), c), d, k);
    BitOr(Or(Or(Or(a, b), c), d), e, k);
  }

  /** Exactly these bits are set for VMM attributes: page, inner shareable, access flag; memory type 2
      unless bit 3 asks for device memory; read-only without bit 1; execute-never by bits 5 and 6. */
  lemma {:induction false} AttrBits(attrs: nat, k: nat)
    ensures Bit(PteAttrs(attrs), k) <==>
            || k == 1 || k == 8 || k == 9 || k == 10 || (k == 3 && !Bit(attrs, 3)) || (k == 7 && !Bit(attrs, 1))
            || (k == 54 && Bit(attrs, 5)) || (k == 53 && Bit(attrs, 6))
  {
    hide Bit, Or, Pow2;
    var f1 := if Bit(attrs, VMM_DEVICE) then 0 else ATTR_NORMAL;
    var f2 := if Bit(attrs, VMM_W) then 0 else PTE_RO;
    var f3 := if Bit(attrs, VMM_UXN) then PTE_UXN else 0;
    var f4 := if Bit(attrs, VMM_PXN) then PTE_PXN else 0;
    OrBits(Or(Or(PTE_PAGE, PTE_AF), PTE_SH_INNER), f1, f2, f3, f4, k);
    BaseBits(k);
    FlagPowers();
    HighPowers();
    BitZero(k);
    BitPow2(3, k);
    BitPow2(7, k);
    BitPow2(53, k);
    BitPow2(54, k);
  }

  lemma {:induction false} BaseBits(k: nat)
    ensures Bit(Or(Or(PTE_PAGE, PTE_AF), PTE_SH_INNER), k) <==> k == 1 || k == 8 || k == 9 || k == 10
  {
    hide Bit, Or, Pow2;
    FlagPowers();
    BitOr(Or(PTE_PAGE, PTE_AF), PTE_SH_INNER, k);
    BitOr(PTE_PAGE, PTE_AF, k);
    BitOr(Pow2(8), Pow2(9), k);
    BitPow2(1, k);
    BitPow2(10, k);
    BitPow2(8, k);
    BitPow2(9, k);
  }

  lemma {:induction false} MultipleBit(q: nat, j: nat, k: nat)
    requires k < j
    ensures !Bit(Pow2(j) * q, k)
    decreases j
  {
    assert Pow2(j) * q == 2 * (Pow2(j - 1) * q);
    if k > 0 { MultipleBit(q, j - 1, k - 1); }
  }

  lemma {:induction false} AddressBits(x: nat, k: nat)
    ensures Bit(x - x % PAGE, k) <==> k >= 12 && Bit(x, k)
  {
    if k >= 12 {
      BitAligned(x, k);
    } else {
      Pow2Twelve();
      MultipleBit(x / PAGE, 12, k);
      assert x - x % PAGE == Pow2(12) * (x / PAGE);
    }
  }

  /** Every bit of an entry: from bit 12 up also the bits of the address, or of the old entry. */
  lemma {:induction false} EntryBits(x: nat, attrs: nat, k: nat)
    ensures Bit(PteEntry(x, PteAttrs(attrs)), k) <==>
            || (k >= 12 && Bit(x, k)) || k == 0 || k == 1 || k == 8 || k == 9 || k == 10
            || (k == 3 && !Bit(attrs, 3)) || (k == 7 && !Bit(attrs, 1))
            || (k == 54 && Bit(attrs, 5)) || (k == 53 && Bit(attrs, 6))
  {
    hide PteAttrs, Bit, Or, Pow2;
    var b, a := x - x % PAGE, PteAttrs(attrs);
    BitOr(b, a, k);
    BitOr(Or(b, a), PTE_AF, k);
    BitOr(Or(Or(b, a), PTE_AF), PTE_VALID, k);
    AddressBits(x, k);
    AttrBits(attrs, k);
    FlagPowers();
    BitPow2(10, k);
    BitPow2(0, k);
  }

  /** What an entry grants under VMM attributes: a valid page, inner shareable, accessed; device memory
      (type 0) if bit 3 asks for it, else normal memory (type 2); writable exactly with bit 1;
      execute-never at least where bits 5 and 6 say so. */
  predicate Grants(e: nat, attrs: nat)
  {
    && Bit(e, 0) && Bit(e, 1) && !Bit(e, 2) && (Bit(e, 3) <==> !Bit(attrs, 3)) && !Bit(e, 4)
    && (Bit(e, 7) <==> !Bit(attrs, 1)) && Bit(e, 8) && Bit(e, 9) && Bit(e, 10)
    && (Bit(attrs, 5) ==> Bit(e, 54)) && (Bit(attrs, 6) ==> Bit(e, 53))
  }

  lemma {:induction false} EntryGrants(x: nat, attrs: nat)
    ensures Grants(PteEntry(x, PteAttrs(attrs)), attrs)
    ensures Bit(PteEntry(x, PteAttrs(attrs)), 53) <==> Bit(x, 53) || Bit(attrs, 6)
    ensures Bit(PteEntry(x, PteAttrs(attrs)), 54) <==> Bit(x, 54) || Bit(attrs, 5)
  {
    hide PteAttrs, PteEntry, Bit;
    EntryBits(x, attrs, 0);
    EntryBits(x, attrs, 1);
    EntryBits(x, attrs, 2);
    EntryBits(x, attrs, 3);
    EntryBits(x, attrs, 4);
    EntryBits(x, attrs, 7);
    EntryBits(x, attrs, 8);
    EntryBits(x, attrs, 9);
    EntryBits(x, attrs, 10);
    EntryBits(x, attrs, 53);
    EntryBits(x, attrs, 54);
  }

  /** The memory type is the number in bits 2 to 4. */
  lemma {:induction false} MemoryType(e: nat, attrs: nat)
    requires Grants(e, attrs)
    ensures e / 4 % 8 == if Bit(attrs, 3) then 0 else 2
  {
    var h := e / 2 / 2;
    assert Bit(e, 2) == Bit(e / 2, 1) == Bit(h, 0);
    assert Bit(e, 3) == Bit(e / 2, 2) == Bit(h, 1) == Bit(h / 2, 0);
    assert Bit(e, 4) == Bit(e / 2, 3) == Bit(h, 2) == Bit(h / 2, 1) == Bit(h / 2 / 2, 0);
    assert h % 8 == h % 2 + 2 * (h / 2 % 2) + 4 * (h / 2 / 2 % 2);
  }
}
