/** Machine words: powers of two, signed wrap-around and bitwise or on naturals. */
module Words {
  function Pow2(k: nat): (r: nat)
    ensures r > 0
  {
    if k == 0 then 1 else 2 * Pow2(k - 1)
  }

  lemma MulAssociates(a: int, b: int, c: int)
    ensures a * (b * c) == (a * b) * c
  {
  }

  lemma {:induction false} Pow2Add(a: nat, b: nat)
    ensures Pow2(a + b) == Pow2(a) * Pow2(b)
  {
    if a > 0 {
      Pow2Add(a - 1, b);
      assert Pow2(a + b) == 2 * Pow2(a - 1 + b);
      MulAssociates(2, Pow2(a - 1), Pow2(b));
    }
  }

  lemma {:induction false} Pow2Monotone(a: nat, b: nat)
    requires a <= b
    ensures Pow2(a) <= Pow2(b)
  {
    if a < b {
      Pow2Monotone(a, b - 1);
    }
  }

  const TWO_TO_THE_32 := 0x1_0000_0000
  const TWO_TO_THE_63 := 0x8000_0000_0000_0000
  const TWO_TO_THE_64 := 0x1_0000_0000_0000_0000

  predicate IsInt64(x: int) {
    -TWO_TO_THE_63 <= x < TWO_TO_THE_63
  }

  /** The int64 that holds the low 64 bits of x. */
  function WrapInt64(x: int): (r: int)
    ensures IsInt64(r)
    ensures IsInt64(x) ==> r == x
  {
    (x + TWO_TO_THE_63) % TWO_TO_THE_64 - TWO_TO_THE_63
  }

  /** It differs from x by a multiple of 2^64. */
  lemma WrapsInt64(x: int)
    ensures (WrapInt64(x) - x) % 0x1_0000_0000_0000_0000 == 0
  {
  }

  lemma LargePowers()
    ensures Pow2(14) == 0x4000 && Pow2(30) == 0x4000_0000
    ensures Pow2(60) == 0x1000_0000_0000_0000 && Pow2(61) == 0x2000_0000_0000_0000
  {
    assert Pow2(8) == 0x100;
    Pow2Add(8, 6);
    assert Pow2(6) == 64;
    Pow2Add(8, 8);
    Pow2Add(16, 14);
    Pow2Add(30, 30);
  }

  /** Bitwise or. */
  function Or(a: nat, b: nat): nat
    decreases a + b
  {
    if a == 0 && b == 0 then 0
    else 2 * Or(a / 2, b / 2) + if a % 2 == 1 || b % 2 == 1 then 1 else 0
  }

  lemma {:induction false} OrZero(a: nat)
    ensures Or(a, 0) == a && Or(0, a) == a
    decreases a
  {
    if a > 0 {
      OrZero(a / 2);
    }
  }

  lemma OrStep(u: nat, p: nat, v: nat, r: nat)
    requires p < 2 && r < 2
    ensures Or(2 * u + p, 2 * v + r) == 2 * Or(u, v) + if p == 1 || r == 1 then 1 else 0
  {
  }

  /** a shifted left by k bits. */
  function Shift(a: nat, k: nat): nat {
    if k == 0 then a else 2 * Shift(a, k - 1)
  }

  /** Or works on the low k bits and on the bits above them separately. */
  lemma {:induction false} OrShift(k: nat, a: nat, x: nat, b: nat, y: nat)
    requires x < Pow2(k) && y < Pow2(k)
    ensures Or(Shift(a, k) + x, Shift(b, k) + y) == Shift(Or(a, b), k) + Or(x, y)
  {
    if k == 0 {
      OrZero(0);
    } else {
      var u, v, p, r := x / 2, y / 2, x % 2, y % 2;
      OrShift(k - 1, a, u, b, v);
      OrStep(Shift(a, k - 1) + u, p, Shift(b, k - 1) + v, r);
      OrStep(u, p, v, r);
      assert x == 2 * u + p && y == 2 * v + r;
    }
  }

  lemma {:induction false} ShiftIsProduct(a: nat, k: nat)
    ensures Shift(a, k) == a * Pow2(k)
  {
    if k > 0 {
      ShiftIsProduct(a, k - 1);
      assert a * (2 * Pow2(k - 1)) == 2 * (a * Pow2(k - 1));
    }
  }

  /** The same, written with the product. */
  lemma OrAbove(k: nat, p: nat, a: nat, x: nat, b: nat, y: nat)
    requires p == Pow2(k) && x < p && y < p
    ensures Or(a * p + x, b * p + y) == Or(a, b) * p + Or(x, y)
  {
    OrShift(k, a, x, b, y);
    ShiftIsProduct(a, k);
    ShiftIsProduct(b, k);
    ShiftIsProduct(Or(a, b), k);
  }

  lemma OrAbove14(a: nat, x: nat, b: nat, y: nat)
    requires x < 0x4000 && y < 0x4000
    ensures Or(a * 0x4000 + x, b * 0x4000 + y) == Or(a, b) * 0x4000 + Or(x, y)
  {
    LargePowers();
    OrAbove(14, 0x4000, a, x, b, y);
  }

  lemma OrAbove30(a: nat, x: nat, b: nat, y: nat)
    requires x < 0x4000_0000 && y < 0x4000_0000
    ensures Or(a * 0x4000_0000 + x, b * 0x4000_0000 + y) == Or(a, b) * 0x4000_0000 + Or(x, y)
  {
    LargePowers();
    OrAbove(30, 0x4000_0000, a, x, b, y);
  }

  /** Bitwise exclusive or. */
  function Xor(a: nat, b: nat): nat
    decreases a + b
  {
    if a == 0 && b == 0 then 0
    else 2 * Xor(a / 2, b / 2) + if a % 2 != b % 2 then 1 else 0
  }

  /** Bit k of n. */
  predicate Bit(n: nat, k: nat) {
    if k == 0 then n % 2 == 1 else Bit(n / 2, k - 1)
  }

  /** Each bit of the two results is that of the bits of the operands. */
  lemma {:induction false} BitsOf(a: nat, b: nat, k: nat)
    ensures Bit(Xor(a, b), k) <==> Bit(a, k) != Bit(b, k)
    ensures Bit(Or(a, b), k) <==> Bit(a, k) || Bit(b, k)
    decreases k
  {
    assert Xor(a, b) / 2 == Xor(a / 2, b / 2) && Or(a, b) / 2 == Or(a / 2, b / 2);
    if k > 0 {
      BitsOf(a / 2, b / 2, k - 1);
    }
  }

  lemma {:induction false} XorBound(a: nat, b: nat, k: nat)
    requires a < Pow2(k) && b < Pow2(k)
    ensures Xor(a, b) < Pow2(k)
    decreases k
  {
    if k > 0 {
      XorBound(a / 2, b / 2, k - 1);
    }
  }

  lemma {:induction false} XorCancels(a: nat, b: nat)
    ensures Xor(Xor(a, b), b) == a
    decreases a + b
  {
    if a != 0 || b != 0 {
      XorCancels(a / 2, b / 2);
      var x := Xor(a, b);
      assert x / 2 == Xor(a / 2, b / 2);
      assert x % 2 == if a % 2 != b % 2 then 1 else 0;
    }
  }
}
