/** The numbers that 32-bit vectors stand for, and what the operations on vectors do to them. */
module WordBits {
  import opened Words

  function LowBit(w: bv32): nat {
    if w & 1 == 1 then 1 else 0
  }

  /** The number whose binary digits are the bits of w. */
  function Number(w: bv32): nat
    decreases w
  {
    if w == 0 then 0 else LowBit(w) + 2 * Number(w >> 1)
  }

  lemma {:induction false} NumberIsPositive(w: bv32)
    requires w != 0
    ensures Number(w) > 0
    decreases w
  {
    if w & 1 != 1 {
      assert w >> 1 != 0 && w >> 1 < w;
      NumberIsPositive(w >> 1);
    }
  }

  // What follows holds of any numbering with the laws of Number; the proofs never unfold it.

  ghost predicate Halves(num: bv32 -> nat, w: bv32) {
    num(w) == LowBit(w) + 2 * num(w >> 1) && (w == 0 <==> num(w) == 0)
  }

  /** The laws of halving and of counting. */
  ghost predicate Lawful(num: bv32 -> nat) {
    (forall w :: Halves(num, w)) && forall w :: Counts(num, w)
  }

  ghost predicate Counts(num: bv32 -> nat, w: bv32) {
    num(w) < TWO_TO_THE_32 && num(w + 1) == (num(w) + 1) % TWO_TO_THE_32
  }

  lemma NumberHalves(num: bv32 -> nat)
    requires num == Number
    ensures forall w :: Halves(num, w)
  {
    forall w
      ensures Halves(num, w)
    {
      if w != 0 {
        NumberIsPositive(w);
      }
    }
  }

  // ---------------------------------------------------------------- shifts to the right

  lemma HalfOf(num: bv32 -> nat, w: bv32, half: bv32)
    requires (forall x :: Halves(num, x)) && half == w >> 1
    ensures num(half) == num(w) / 2 && (w != 0 ==> num(half) < num(w))
  {
    assert Halves(num, w);
  }

  lemma Right4Steps(w: bv32, r: bv32) returns (w1: bv32, w2: bv32, w3: bv32)
    requires r == w >> 4
    ensures w1 == w >> 1 && w2 == w1 >> 1 && w3 == w2 >> 1 && r == w3 >> 1
  {
    w1 := w >> 1;
    w2 := w1 >> 1;
    w3 := w2 >> 1;
  }

  lemma Right4Of(num: bv32 -> nat, w: bv32, r: bv32)
    requires (forall x :: Halves(num, x)) && r == w >> 4
    ensures num(r) == num(w) / 16
  {
    var w1, w2, w3 := Right4Steps(w, r);
    HalfOf(num, w, w1);
    HalfOf(num, w1, w2);
    HalfOf(num, w2, w3);
    HalfOf(num, w3, r);
  }

  lemma Right5Of(num: bv32 -> nat, w: bv32, r: bv32)
    requires (forall x :: Halves(num, x)) && r == w >> 5
    ensures num(r) == num(w) / 32
  {
    var w4 := w >> 4;
    Right4Of(num, w, w4);
    assert r == w4 >> 1;
    HalfOf(num, w4, r);
  }

  lemma Right8Of(num: bv32 -> nat, w: bv32, r: bv32)
    requires (forall x :: Halves(num, x)) && r == w >> 8
    ensures num(r) == num(w) / 256
  {
    var w4 := w >> 4;
    Right4Of(num, w, w4);
    assert r == w4 >> 4;
    Right4Of(num, w4, r);
  }

  lemma Right32Steps(w: bv32) returns (a: bv32, b: bv32, c: bv32, d: bv32)
    ensures a == w >> 8 && b == a >> 8 && c == b >> 8 && d == c >> 8 && d == 0
  {
    a := w >> 8;
    b := a >> 8;
    c := b >> 8;
    d := c >> 8;
  }

  lemma BelowBound(n: nat)
    requires n / 256 / 256 / 256 / 256 == 0
    ensures n < TWO_TO_THE_32
  {
  }

  lemma NumberBound(num: bv32 -> nat, w: bv32)
    requires forall x :: Halves(num, x)
    ensures num(w) < TWO_TO_THE_32
  {
    var a, b, c, d := Right32Steps(w);
    Right8Of(num, w, a);
    Right8Of(num, a, b);
    Right8Of(num, b, c);
    Right8Of(num, c, d);
    assert Halves(num, 0);
    BelowBound(num(w));
  }

  // ---------------------------------------------------------------- counting

  const ALL: bv32 := 0xffff_ffff

  lemma NextOfOdd(w: bv32) returns (v: bv32, w1: bv32, v1: bv32)
    requires w & 1 == 1 && w != ALL
    ensures v == w + 1 && w1 == w >> 1 && v1 == v >> 1
    ensures v1 == w1 + 1 && LowBit(w) == 1 && LowBit(v) == 0 && w1 != ALL
  {
    v := w + 1;
    w1, v1 := w >> 1, v >> 1;
  }

  lemma NextOfEven(w: bv32) returns (v: bv32, half: bv32)
    requires w & 1 != 1
    ensures v == w + 1 && half == w >> 1 && half == v >> 1
    ensures LowBit(w) == 0 && LowBit(v) == 1
  {
    v := w + 1;
    half := w >> 1;
  }

  lemma {:induction false} NumberOfNext(num: bv32 -> nat, w: bv32)
    requires (forall x :: Halves(num, x)) && w != ALL
    ensures num(w + 1) == num(w) + 1
    decreases num(w)
  {
    if w & 1 == 1 {
      var v, w1, v1 := NextOfOdd(w);
      assert Halves(num, w) && Halves(num, v);
      NumberOfNext(num, w1);
    } else {
      var v, half := NextOfEven(w);
      assert Halves(num, w) && Halves(num, v);
    }
  }

  lemma OddHalf(num: bv32 -> nat, w: bv32, half: bv32)
    requires (forall x :: Halves(num, x)) && w & 1 == 1 && half == w >> 1
    ensures num(w) == 1 + 2 * num(half)
  {
    assert Halves(num, w);
  }

  lemma OddNibble(num: bv32 -> nat, w: bv32, w1: bv32, w2: bv32, w3: bv32, w4: bv32)
    requires forall x :: Halves(num, x)
    requires w1 == w >> 1 && w2 == w1 >> 1 && w3 == w2 >> 1 && w4 == w3 >> 1
    requires w & 1 == 1 && w1 & 1 == 1 && w2 & 1 == 1 && w3 & 1 == 1
    ensures num(w) == 15 + 16 * num(w4)
  {
    OddHalf(num, w, w1);
    OddHalf(num, w1, w2);
    OddHalf(num, w2, w3);
    OddHalf(num, w3, w4);
  }

  lemma NumberOfAll(num: bv32 -> nat)
    requires forall x :: Halves(num, x)
    ensures num(ALL) == TWO_TO_THE_32 - 1
  {
    OddNibble(num, 0xffff_ffff, 0x7fff_ffff, 0x3fff_ffff, 0x1fff_ffff, 0xfff_ffff);
    OddNibble(num, 0xfff_ffff, 0x7ff_ffff, 0x3ff_ffff, 0x1ff_ffff, 0xff_ffff);
    OddNibble(num, 0xff_ffff, 0x7f_ffff, 0x3f_ffff, 0x1f_ffff, 0xf_ffff);
    OddNibble(num, 0xf_ffff, 0x7_ffff, 0x3_ffff, 0x1_ffff, 0xffff);
    OddNibble(num, 0xffff, 0x7fff, 0x3fff, 0x1fff, 0xfff);
    OddNibble(num, 0xfff, 0x7ff, 0x3ff, 0x1ff, 0xff);
    OddNibble(num, 0xff, 0x7f, 0x3f, 0x1f, 0xf);
    OddNibble(num, 0xf, 0x7, 0x3, 0x1, 0);
    assert Halves(num, 0);
  }

  lemma NumberCounts(num: bv32 -> nat, w: bv32)
    requires forall x :: Halves(num, x)
    ensures Counts(num, w)
  {
    NumberBound(num, w);
    if w == ALL {
      NumberOfAll(num);
      assert Halves(num, 0);
    } else {
      NumberOfNext(num, w);
      NumberBound(num, w + 1);
    }
  }

  lemma NumberIsLawful(num: bv32 -> nat)
    requires num == Number
    ensures Lawful(num)
  {
    NumberHalves(num);
    forall w
      ensures Counts(num, w)
    {
      NumberCounts(num, w);
    }
  }

  // ---------------------------------------------------------------- sums

  /** The sum drops its carry. */
  ghost predicate SumWraps(num: bv32 -> nat, a: bv32, b: bv32) {
    num(a + b) == (num(a) + num(b)) % TWO_TO_THE_32
  }

  lemma WrapStep(a: nat, b: nat, r: nat)
    requires r == (a + b) % TWO_TO_THE_32
    ensures (r + 1) % TWO_TO_THE_32 == (a + (b + 1)) % TWO_TO_THE_32
  {
  }

  lemma SumNext(num: bv32 -> nat, a: bv32, p: bv32)
    requires Lawful(num)
    ensures num(a + (p + 1)) == (num(a + p) + 1) % TWO_TO_THE_32
  {
    assert Counts(num, a + p);
  }

  lemma SumStep(num: bv32 -> nat, a: bv32, p: bv32)
    requires Lawful(num) && SumWraps(num, a, p) && num(p + 1) == num(p) + 1
    ensures SumWraps(num, a, p + 1)
  {
    SumNext(num, a, p);
    WrapStep(num(a), num(p), num(a + p));
  }

  lemma SumOfZero(num: bv32 -> nat, a: bv32)
    requires Lawful(num)
    ensures SumWraps(num, a, 0)
  {
    assert Counts(num, a) && Halves(num, 0);
  }

  lemma Prev(num: bv32 -> nat, w: bv32) returns (p: bv32)
    requires Lawful(num) && w != 0
    ensures p + 1 == w && num(w) == num(p) + 1
  {
    p := w - 1;
    assert Counts(num, w - 1) && Halves(num, w);
  }

  /** By counting b up from zero. */
  lemma {:induction false} SumOf(num: bv32 -> nat, a: bv32, b: bv32)
    requires Lawful(num)
    ensures SumWraps(num, a, b)
    decreases num(b)
  {
    if b == 0 {
      SumOfZero(num, a);
    } else {
      var p := Prev(num, b);
      SumOf(num, a, p);
      SumStep(num, a, p);
    }
  }

  // ---------------------------------------------------------------- shifts to the left

  lemma DoubleOf(num: bv32 -> nat, w: bv32, d: bv32)
    requires Lawful(num) && d == w << 1
    ensures num(d) == 2 * num(w) % TWO_TO_THE_32
  {
    assert w << 1 == w + w;
    SumOf(num, w, w);
  }

  lemma Left4Steps(w: bv32, r: bv32) returns (w1: bv32, w2: bv32, w3: bv32)
    requires r == w << 4
    ensures w1 == w << 1 && w2 == w1 << 1 && w3 == w2 << 1 && r == w3 << 1
  {
    w1 := w << 1;
    w2 := w1 << 1;
    w3 := w2 << 1;
  }

  lemma FourDoubles(n: nat, n1: nat, n2: nat, n3: nat, n4: nat)
    requires n1 == 2 * n % TWO_TO_THE_32 && n2 == 2 * n1 % TWO_TO_THE_32
    requires n3 == 2 * n2 % TWO_TO_THE_32 && n4 == 2 * n3 % TWO_TO_THE_32
    ensures n4 == 16 * n % TWO_TO_THE_32
  {
    DoubleWraps(2 * n);
    DoubleWraps(4 * n);
    DoubleWraps(8 * n);
  }

  lemma DoubleWraps(p: nat)
    ensures 2 * (p % TWO_TO_THE_32) % TWO_TO_THE_32 == 2 * p % TWO_TO_THE_32
  {
  }

  lemma Left4Of(num: bv32 -> nat, w: bv32, r: bv32)
    requires Lawful(num) && r == w << 4
    ensures num(r) == 16 * num(w) % TWO_TO_THE_32
  {
    var w1, w2, w3 := Left4Steps(w, r);
    DoubleOf(num, w, w1);
    DoubleOf(num, w1, w2);
    DoubleOf(num, w2, w3);
    DoubleOf(num, w3, r);
    FourDoubles(num(w), num(w1), num(w2), num(w3), num(r));
  }

  // ---------------------------------------------------------------- exclusive or

  ghost predicate XorsTo(num: bv32 -> nat, xor: (nat, nat) -> nat, a: bv32, b: bv32) {
    num(a ^ b) == xor(num(a), num(b))
  }

  /** What exclusive or does to the last binary digits of its operands. */
  ghost predicate Digits(xor: (nat, nat) -> nat, x: nat, y: nat) {
    xor(x, y) == (if x % 2 != y % 2 then 1 else 0) + 2 * xor(x / 2, y / 2)
  }

  ghost predicate IsXor(xor: (nat, nat) -> nat) {
    xor(0, 0) == 0 && forall x: nat, y: nat :: Digits(xor, x, y)
  }

  lemma XorDigits(xor: (nat, nat) -> nat)
    requires xor == Xor
    ensures IsXor(xor)
  {
  }

  lemma XorParts(num: bv32 -> nat, a: bv32, a1: bv32, b: bv32, b1: bv32)
    requires Lawful(num) && a1 == a >> 1 && b1 == b >> 1
    ensures num(a ^ b) == (if LowBit(a) != LowBit(b) then 1 else 0) + 2 * num(a1 ^ b1)
  {
    assert Halves(num, a ^ b);
    LowXor(a, b);
    HalfXor(a, a1, b, b1);
  }

  lemma LowXor(a: bv32, b: bv32)
    ensures LowBit(a ^ b) == if LowBit(a) != LowBit(b) then 1 else 0
  {
  }

  lemma HalfXor(a: bv32, a1: bv32, b: bv32, b1: bv32)
    requires a1 == a >> 1 && b1 == b >> 1
    ensures (a ^ b) >> 1 == a1 ^ b1
  {
  }

  lemma Parts(num: bv32 -> nat, a: bv32) returns (p: nat, half: bv32)
    requires Lawful(num)
    ensures p == LowBit(a) == num(a) % 2 && half == a >> 1 && num(half) == num(a) / 2
    ensures a != 0 ==> num(half) < num(a)
  {
    assert Halves(num, a);
    p, half := LowBit(a), a >> 1;
  }

  lemma XorHalves(num: bv32 -> nat, a: bv32, b: bv32) returns (p: nat, a1: bv32, q: nat, b1: bv32)
    requires Lawful(num)
    ensures p == num(a) % 2 && num(a1) == num(a) / 2 && (a != 0 ==> num(a1) < num(a))
    ensures q == num(b) % 2 && num(b1) == num(b) / 2 && (b != 0 ==> num(b1) < num(b))
    ensures num(a ^ b) == (if p != q then 1 else 0) + 2 * num(a1 ^ b1)
  {
    p, a1 := Parts(num, a);
    q, b1 := Parts(num, b);
    XorParts(num, a, a1, b, b1);
  }

  lemma XorOfZeros(num: bv32 -> nat, xor: (nat, nat) -> nat)
    requires Lawful(num) && IsXor(xor)
    ensures XorsTo(num, xor, 0, 0)
  {
    assert Halves(num, 0);
  }

  lemma {:induction false} XorOf(num: bv32 -> nat, xor: (nat, nat) -> nat, a: bv32, b: bv32)
    requires Lawful(num) && IsXor(xor)
    ensures XorsTo(num, xor, a, b)
    decreases num(a) + num(b)
  {
    if a == 0 && b == 0 {
      XorOfZeros(num, xor);
    } else {
      var p, a1, q, b1 := XorHalves(num, a, b);
      XorOf(num, xor, a1, b1);
      assert Digits(xor, num(a), num(b));
    }
  }
}
