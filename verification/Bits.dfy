/** Bitwise operations on unsigned machine words, over the naturals.
    A shift right by k is a division by Pow2(k) and a mask of k low bits is a remainder. */
module Bits {

  const TWO_32: nat := 0x1_0000_0000
  const TWO_64: nat := 0x1_0000_0000_0000_0000

  function Pow2(k: nat): (r: nat)
    ensures r > 0
  {
    if k == 0 then 1 else 2 * Pow2(k - 1)
  }

  predicate Bit(a: nat, k: nat)
    decreases k
  {
    if k == 0 then a % 2 == 1 else Bit(a / 2, k - 1)
  }

  /** The C operator `|`. */
  function Or(a: nat, b: nat): nat
    decreases a + b
  {
    if a == 0 then b
    else if b == 0 then a
    else (if a % 2 == 1 || b % 2 == 1 then 1 else 0) + 2 * Or(a / 2, b / 2)
  }

  /** The C expression `a & ~b`. */
  function AndNot(a: nat, b: nat): (r: nat)
    ensures r <= a
    decreases a
  {
    if a == 0 then 0
    else (if a % 2 == 1 && b % 2 == 0 then 1 else 0) + 2 * AndNot(a / 2, b / 2)
  }

  lemma DivDiv(a: nat, b: nat, c: nat)
    requires b > 0 && c > 0
    ensures b * c > 0
    ensures a / (b * c) == a / b / c
  {
    var q, r := a / b, a % b;
    var q', r' := q / c, q % c;
    assert a == b * (c * q' + r') + r;
    assert a == (b * c) * q' + (b * r' + r);
    assert b * r' + b <= b * c by { MulMono(b, r' + 1, c); }
    DivUnique(a, b * c, q', b * r' + r);
  }

  lemma MulMono(a: nat, x: nat, y: nat)
    requires x <= y
    ensures a * x <= a * y
  {}

  lemma DivUnique(a: nat, d: nat, q: nat, r: nat)
    requires d > 0 && a == d * q + r && r < d
    ensures a / d == q && a % d == r
  {
    var q', r' := a / d, a % d;
    assert d * q + r == d * q' + r';
    if q < q' { MulMono(d, q + 1, q'); assert false; }
    if q' < q { MulMono(d, q' + 1, q); assert false; }
  }

  lemma {:induction false} ZeroBit(k: nat)
    ensures !Bit(0, k)
  {
    if k > 0 { ZeroBit(k - 1); }
  }

  /** `|` sets exactly the bits that one of its operands has. */
  lemma {:induction false} OrBit(a: nat, b: nat, k: nat)
    ensures Bit(Or(a, b), k) <==> Bit(a, k) || Bit(b, k)
    decreases k
  {
    ZeroBit(k);
    if a != 0 && b != 0 && k > 0 {
      assert Or(a, b) / 2 == Or(a / 2, b / 2);
      OrBit(a / 2, b / 2, k - 1);
    }
  }

  lemma {:induction false} AndNotBit(a: nat, b: nat, k: nat)
    ensures Bit(AndNot(a, b), k) <==> Bit(a, k) && !Bit(b, k)
    decreases k
  {
    ZeroBit(k);
    if a != 0 && k > 0 {
      assert AndNot(a, b) / 2 == AndNot(a / 2, b / 2);
      AndNotBit(a / 2, b / 2, k - 1);
    }
  }

  lemma {:induction false} Pow2Bit(i: nat, k: nat)
    ensures Bit(Pow2(i), k) <==> i == k
    decreases k
  {
    if i == 0 {
      if k > 0 { ZeroBit(k - 1); }
    } else if k > 0 {
      assert Pow2(i) / 2 == Pow2(i - 1);
      Pow2Bit(i - 1, k - 1);
    }
  }

  /** Pow2(n) - 1 is the mask of the n low bits. */
  lemma {:induction false} LowMaskBit(n: nat, k: nat)
    ensures Bit(Pow2(n) - 1, k) <==> k < n
    decreases k
  {
    if n == 0 {
      ZeroBit(k);
    } else if k > 0 {
      assert (Pow2(n) - 1) / 2 == Pow2(n - 1) - 1;
      LowMaskBit(n - 1, k - 1);
    }
  }

  /** Words of the same width with the same bits are equal. */
  lemma {:induction false} SameBits(a: nat, b: nat, n: nat)
    requires a < Pow2(n) && b < Pow2(n)
    requires forall k :: 0 <= k < n ==> (Bit(a, k) <==> Bit(b, k))
    ensures a == b
    decreases n
  {
    if n > 0 {
      assert Bit(a, 0) <==> Bit(b, 0);
      forall k | 0 <= k < n - 1 ensures Bit(a / 2, k) <==> Bit(b / 2, k) {
        assert Bit(a, k + 1) <==> Bit(b, k + 1);
      }
      SameBits(a / 2, b / 2, n - 1);
    }
  }

  lemma {:induction false} OrBound(a: nat, b: nat, n: nat)
    requires a < Pow2(n) && b < Pow2(n)
    ensures Or(a, b) < Pow2(n)
    decreases n
  {
    if n > 0 && a != 0 && b != 0 { OrBound(a / 2, b / 2, n - 1); }
  }

  /** The operands below bit k do not disturb a multiple of Pow2(k). */
  lemma {:induction false} OrAbove(p: nat, x: nat, y: nat, k: nat)
    requires p % Pow2(k) == 0 && x < Pow2(k) && y < Pow2(k)
    ensures Or(p + x, y) == p + Or(x, y)
    ensures Or(x, y) < Pow2(k)
    decreases k
  {
    if k == 0 {
    } else {
      var h := Pow2(k - 1);
      var m := p / Pow2(k);
      assert p == 2 * (h * m);
      assert (h * m) % h == 0 by { DivUnique(h * m, h, m, 0); }
      OrAbove(p / 2, x / 2, y / 2, k - 1);
      assert (p + x) / 2 == p / 2 + x / 2 && (p + x) % 2 == x % 2;
    }
  }

  lemma Pow2At12()
    ensures Pow2(0) == 1 && Pow2(4) == 16 && Pow2(7) == 0x80 && Pow2(12) == 0x1000
  {
    assert Pow2(4) == 16 && Pow2(8) == 16 * Pow2(4);
    assert Pow2(12) == 16 * Pow2(8);
  }
}
