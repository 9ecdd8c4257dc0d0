/**
 Machine words as natural numbers, with the bit operations the kernel uses on them:
 `|`, `& ~`, testing one bit, and cutting out a field.
 */
module Bits {

  const TWO64: nat := 0x1_0000_0000_0000_0000
  const TWO32: nat := 0x1_0000_0000
  const PAGE: nat := 4096

  /** A 64-bit sum. */
  function Add64(a: nat, b: nat): nat
  {
    (a + b) % TWO64
  }

  function Pow2(n: nat): nat
  {
    if n == 0 then 1 else 2 * Pow2(n - 1)
  }

  lemma {:induction false} Pow2Positive(n: nat)
    ensures Pow2(n) >= 1
  {
    if n > 0 { Pow2Positive(n - 1); }
  }

  lemma {:induction false} Pow2Monotone(a: nat, b: nat)
    requires a <= b
    ensures Pow2(a) <= Pow2(b)
    decreases b
  {
    if a < b { Pow2Monotone(a, b - 1); }
  }

  lemma {:induction false} Pow2Plus(a: nat, b: nat)
    ensures Pow2(a + b) == Pow2(a) * Pow2(b)
  {
    if a > 0 { Pow2Plus(a - 1, b); }
  }

  predicate Bit(w: nat, k: nat)
  {
    if k == 0 then w % 2 == 1 else Bit(w / 2, k - 1)
  }

  /** `a | b` */
  function Or(a: nat, b: nat): nat
    decreases a + b
  {
    if a == 0 then b
    else if b == 0 then a
    else 2 * Or(a / 2, b / 2) + (if a % 2 == 1 || b % 2 == 1 then 1 else 0)
  }

  /** `a & ~b` */
  function AndNot(a: nat, b: nat): nat
    decreases a + b
  {
    if a == 0 || b == 0 then a
    else 2 * AndNot(a / 2, b / 2) + (if a % 2 == 1 && b % 2 == 0 then 1 else 0)
  }

  /** `w >> k` */
  function Shr(w: nat, k: nat): nat
  {
    if k == 0 then w else Shr(w / 2, k - 1)
  }

  /** The low `m` bits of `w`. */
  function Low(w: nat, m: nat): nat
  {
    if m == 0 then 0 else w % 2 + 2 * Low(w / 2, m - 1)
  }

  lemma {:induction false} OrHalves(a: nat, b: nat)
    ensures Or(a, b) / 2 == Or(a / 2, b / 2)
    ensures Or(a, b) % 2 == 1 <==> a % 2 == 1 || b % 2 == 1
  {
    if a == 0 {
      assert Or(0, b / 2) == b / 2;
    } else if b == 0 {
      assert Or(a / 2, 0) == a / 2;
    }
  }

  lemma {:induction false} AndNotHalves(a: nat, b: nat)
    ensures AndNot(a, b) / 2 == AndNot(a / 2, b / 2)
    ensures AndNot(a, b) % 2 == 1 <==> a % 2 == 1 && b % 2 == 0
  {
    if a == 0 || b == 0 {
      assert AndNot(a / 2, b / 2) == a / 2;
    }
  }

  lemma {:induction false} BitOr(a: nat, b: nat, k: nat)
    ensures Bit(Or(a, b), k) <==> Bit(a, k) || Bit(b, k)
    decreases k
  {
    OrHalves(a, b);
    if k > 0 { BitOr(a / 2, b / 2, k - 1); }
  }

  lemma {:induction false} BitAndNot(a: nat, b: nat, k: nat)
    ensures Bit(AndNot(a, b), k) <==> Bit(a, k) && !Bit(b, k)
    decreases k
  {
    AndNotHalves(a, b);
    if k > 0 { BitAndNot(a / 2, b / 2, k - 1); }
  }

  lemma {:induction false} BitZero(k: nat)
    ensures !Bit(0, k)
  {
    if k > 0 { BitZero(k - 1); }
  }

  lemma {:induction false} BitPow2(j: nat, k: nat)
    ensures Bit(Pow2(j), k) <==> j == k
  {
    if j == 0 {
      if k > 0 { BitZero(k - 1); }
    } else if k > 0 {
      assert Pow2(j) / 2 == Pow2(j - 1);
      BitPow2(j - 1, k - 1);
    }
  }

  /** `w |= 1 << j` sets bit `j` and no other. */
  lemma {:induction false} SetOneBit(w: nat, j: nat, k: nat)
    ensures Bit(Or(w, Pow2(j)), k) <==> k == j || Bit(w, k)
  {
    BitOr(w, Pow2(j), k);
    BitPow2(j, k);
  }

  /** `w &= ~(1 << j)` clears bit `j` and no other. */
  lemma {:induction false} ClearOneBit(w: nat, j: nat, k: nat)
    ensures Bit(AndNot(w, Pow2(j)), k) <==> k != j && Bit(w, k)
  {
    BitAndNot(w, Pow2(j), k);
    BitPow2(j, k);
  }

  /** An OR of two `n`-bit words is an `n`-bit word; clearing bits never widens. */
  lemma {:induction false} OrWidth(a: nat, b: nat, n: nat)
    requires a < Pow2(n) && b < Pow2(n)
    ensures Or(a, b) < Pow2(n)
    decreases n
  {
    if a != 0 && b != 0 { OrWidth(a / 2, b / 2, n - 1); }
  }

  lemma {:induction false} AndNotSmaller(a: nat, b: nat)
    ensures AndNot(a, b) <= a
    decreases a + b
  {
    if a != 0 && b != 0 { AndNotSmaller(a / 2, b / 2); }
  }

  lemma {:induction false} ShrIsDivision(w: nat, k: nat)
    ensures Pow2(k) > 0 && Shr(w, k) == w / Pow2(k)
    decreases k
  {
    Pow2Positive(k);
    if k > 0 {
      ShrIsDivision(w / 2, k - 1);
      DivTwice(w, 2, Pow2(k - 1));
    }
  }

  lemma {:induction false} MulApart(d: nat, q: nat, q': nat)
    requires q < q'
    ensures d * q + d <= d * q'
    decreases q'
  {
    assert d * q' == d * (q' - 1) + d;
    if q < q' - 1 { MulApart(d, q, q' - 1); }
  }

  lemma {:induction false} DivUnique(w: nat, d: nat, q: nat, r: nat)
    requires d > 0 && w == d * q + r && r < d
    ensures w / d == q && w % d == r
  {
    QuotientUnique(d, q, r, w / d, w % d);
  }

  lemma {:induction false} QuotientUnique(d: nat, q: nat, r: nat, q': nat, r': nat)
    requires r < d && r' < d && d * q + r == d * q' + r'
    ensures q == q' && r == r'
  {
    if q < q' { MulApart(d, q, q'); }
    if q' < q { MulApart(d, q', q); }
  }

  lemma {:induction false} Unfactor(a: nat, b: nat, q: nat, s: nat, r: nat)
    requires r < a && s < b
    ensures a * (b * q + s) + r == (a * b) * q + (a * s + r)
    ensures a * s + r < a * b
  {
    assert a * (b * q + s) == a * (b * q) + a * s;
    assert a * (b * q) == (a * b) * q;
    MulApart(a, s, b);
  }

  lemma {:induction false} DivMod(w: nat, a: nat)
    requires a > 0
    ensures w == a * (w / a) + w % a && w % a < a
  {}

  /** Digits `d`, `s`, `r` of a number in two bases: grouped, they are the digits in the product. */
  lemma {:induction false} Regrouped(w: nat, a: nat, b: nat, q: nat, r: nat, d: nat, s: nat)
    requires w == a * q + r && r < a && q == b * d + s && s < b
    ensures w == (a * b) * d + (a * s + r) && a * s + r < a * b
  {
    Unfactor(a, b, d, s, r);
    assert a * q == a * (b * d + s);
  }

  lemma {:induction false} DivTwice(w: nat, a: nat, b: nat)
    requires a > 0 && b > 0
    ensures a * b > 0 && (w / a) / b == w / (a * b)
  {
    var q, r := w / a, w % a;
    DivMod(w, a);
    var d, s := q / b, q % b;
    DivMod(q, b);
    Regrouped(w, a, b, q, r, d, s);
    DivUnique(w, a * b, d, a * s + r);
  }

  /** A remainder by twice `p` in terms of the half. */
  lemma {:induction false} RemainderOfHalf(w: nat, p: nat)
    requires p > 0
    ensures w % (2 * p) == 2 * (w / 2 % p) + w % 2
  {
    var h, b := w / 2, w % 2;
    var q, r := h / p, h % p;
    DivMod(h, p);
    Regrouped(w, 2, p, h, b, q, r);
    DivUnique(w, 2 * p, q, 2 * r + b);
  }

  lemma {:induction false} LowIsRemainder(w: nat, m: nat)
    ensures Pow2(m) > 0 && Low(w, m) == w % Pow2(m)
    decreases m
  {
    Pow2Positive(m);
    if m > 0 {
      LowIsRemainder(w / 2, m - 1);
      Pow2Positive(m - 1);
      RemainderOfHalf(w, Pow2(m - 1));
    }
  }

  lemma {:induction false} ShrOr(a: nat, b: nat, k: nat)
    ensures Shr(Or(a, b), k) == Or(Shr(a, k), Shr(b, k))
    decreases k
  {
    OrHalves(a, b);
    if k > 0 { ShrOr(a / 2, b / 2, k - 1); }
  }

  lemma {:induction false} LowOr(a: nat, b: nat, m: nat)
    ensures Low(Or(a, b), m) == Or(Low(a, m), Low(b, m))
    decreases m
  {
    if m > 0 {
      OrHalves(a, b);
      LowOr(a / 2, b / 2, m - 1);
      OrDoubled(Low(a / 2, m - 1), a % 2, Low(b / 2, m - 1), b % 2);
    }
  }

  lemma {:induction false} OrDoubled(x: nat, i: nat, y: nat, j: nat)
    requires i < 2 && j < 2
    ensures Or(i + 2 * x, j + 2 * y) == 2 * Or(x, y) + (if i == 1 || j == 1 then 1 else 0)
  {
    var a, b := i + 2 * x, j + 2 * y;
    assert a / 2 == x && b / 2 == y && a % 2 == i && b % 2 == j;
    OrHalves(a, b);
  }

  /** The field of `len` bits from bit `lo` up. */
  function Field(w: nat, lo: nat, len: nat): nat
  {
    Low(Shr(w, lo), len)
  }

  /** A field of an OR is the OR of the fields. */
  lemma {:induction false} FieldOr(a: nat, b: nat, lo: nat, len: nat)
    ensures Field(Or(a, b), lo, len) == Or(Field(a, lo, len), Field(b, lo, len))
  {
    ShrOr(a, b, lo);
    LowOr(Shr(a, lo), Shr(b, lo), len);
  }

  lemma {:induction false} FieldIsArithmetic(w: nat, lo: nat, len: nat)
    ensures Pow2(lo) > 0 && Pow2(len) > 0 && Field(w, lo, len) == (w / Pow2(lo)) % Pow2(len)
  {
    ShrIsDivision(w, lo);
    LowIsRemainder(Shr(w, lo), len);
  }
}
