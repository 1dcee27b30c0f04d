/** The rounds of SimpleCrypt on 32-bit vectors, written as in cipher2/crypt.go, against the
    rounds on numbers, and answers of the whole cipher worked out on the vectors. */
module SimpleRounds {
  import opened Bytes
  import opened FeedbackCipher
  import opened SimpleCrypt
  import opened WordBits
  import opened Words

  datatype BitMix = BitMix(sum: bv32, v0: bv32, v1: bv32)

  function Sum32(a: bv32, b: bv32): bv32 {
    a + b
  }

  function Xor32(a: bv32, b: bv32): bv32 {
    a ^ b
  }

  function Left32(a: bv32): bv32 {
    a << 4
  }

  function Right32(a: bv32): bv32 {
    a >> 5
  }

  function BitSpread(v: bv32, sum: bv32, k1: bv32, k2: bv32): bv32 {
    Xor32(Xor32(Sum32(Left32(v), k1), Sum32(v, sum)), Sum32(Right32(v), k2))
  }

  function BitRound(m: BitMix, k1: bv32, k2: bv32): BitMix {
    var sum := Sum32(m.sum, 0x3f);
    var v0 := Sum32(m.v0, BitSpread(m.v1, sum, k1, k2));
    BitMix(sum, v0, Sum32(m.v1, BitSpread(v0, sum, k1, k2)))
  }

  function BitRoundWith(k1: bv32, k2: bv32): BitMix -> BitMix {
    (m: BitMix) => BitRound(m, k1, k2)
  }

  // ---------------------------------------------------------------- the operations

  ghost predicate Unary(num: bv32 -> word, w: bv32) {
    num(Left32(w)) == Left4(num(w)) && num(Right32(w)) == Right5(num(w))
  }

  ghost predicate Binary(num: bv32 -> word, a: bv32, b: bv32) {
    num(Sum32(a, b)) == Plus(num(a), num(b)) && num(Xor32(a, b)) == Xor(num(a), num(b))
  }

  /** The operations on vectors do to the numbers what their names say. */
  ghost predicate Agrees(num: bv32 -> word) {
    (forall a :: Unary(num, a)) && (forall a, b :: Binary(num, a, b)) && num(0x3f) == 0x3f
  }

  /** The same numbers, with their bound in the type. */
  ghost predicate Same(n: bv32 -> nat, num: bv32 -> word) {
    Lawful(n) && forall w :: num(w) == n(w)
  }

  lemma LawfulUnary(n: bv32 -> nat, num: bv32 -> word, w: bv32)
    requires Same(n, num)
    ensures Unary(num, w)
  {
    Left4Of(n, w, Left32(w));
    Right5Of(n, w, Right32(w));
  }

  lemma LawfulXor(n: bv32 -> nat, xor: (nat, nat) -> nat, a: bv32, b: bv32)
    requires Lawful(n) && xor == Xor
    ensures n(Xor32(a, b)) == xor(n(a), n(b))
  {
    XorDigits(xor);
    XorOf(n, xor, a, b);
  }

  lemma LawfulBinary(n: bv32 -> nat, num: bv32 -> word, a: bv32, b: bv32)
    requires Same(n, num)
    ensures Binary(num, a, b)
  {
    SumOf(n, a, b);
    LawfulXor(n, Xor, a, b);
    assert num(a) == n(a) && num(b) == n(b);
  }

  lemma Delta(n: bv32 -> nat)
    requires Lawful(n)
    ensures n(0x3f) == 0x3f
  {
    assert Halves(n, 0x3f) && Halves(n, 0x1f) && Halves(n, 0xf);
    assert Halves(n, 7) && Halves(n, 3) && Halves(n, 1) && Halves(n, 0);
  }

  lemma LawfulAgrees(n: bv32 -> nat, num: bv32 -> word)
    requires Same(n, num)
    ensures Agrees(num)
  {
    Delta(n);
    forall a
      ensures Unary(num, a)
    {
      LawfulUnary(n, num, a);
    }
    forall a, b
      ensures Binary(num, a, b)
    {
      LawfulBinary(n, num, a, b);
    }
  }

  // ---------------------------------------------------------------- the rounds

  lemma SpreadAgrees(num: bv32 -> word, v: bv32, sum: bv32, k1: bv32, k2: bv32)
    requires Agrees(num)
    ensures num(BitSpread(v, sum, k1, k2)) == Spread(num(v), num(sum), num(k1), num(k2))
  {
    var a, b, c := Sum32(Left32(v), k1), Sum32(v, sum), Sum32(Right32(v), k2);
    assert Unary(num, v);
    assert Binary(num, Left32(v), k1) && Binary(num, v, sum) && Binary(num, Right32(v), k2);
    assert Binary(num, a, b) && Binary(num, Xor32(a, b), c);
  }

  /** The running values as numbers. */
  function Numbers(num: bv32 -> word, m: BitMix): Mix {
    Mix(num(m.sum), num(m.v0), num(m.v1))
  }

  lemma RoundAgrees(num: bv32 -> word, m: BitMix, k1: bv32, k2: bv32)
    requires Agrees(num)
    ensures Numbers(num, BitRound(m, k1, k2)) == Round(Numbers(num, m), num(k1), num(k2))
  {
    var sum := Sum32(m.sum, 0x3f);
    assert Binary(num, m.sum, 0x3f);
    var s0 := BitSpread(m.v1, sum, k1, k2);
    SpreadAgrees(num, m.v1, sum, k1, k2);
    assert Binary(num, m.v0, s0);
    var v0 := Sum32(m.v0, s0);
    SpreadAgrees(num, v0, sum, k1, k2);
    assert Binary(num, m.v1, BitSpread(v0, sum, k1, k2));
  }

  /** f does to values what g does to what they stand for. */
  ghost predicate Simulates<S, T>(f: S -> S, g: T -> T, h: S -> T, x: S) {
    h(f(x)) == g(h(x))
  }

  lemma {:induction false} RepeatSimulates<S(!new), T>(f: S -> S, g: T -> T, h: S -> T, x: S, n: nat)
    requires forall y :: Simulates(f, g, h, y)
    ensures h(Repeat(f, x, n)) == Repeat(g, h(x), n)
  {
    if n > 0 {
      RepeatSimulates(f, g, h, x, n - 1);
      assert Simulates(f, g, h, Repeat(f, x, n - 1));
    }
  }

  lemma RoundsAgree(num: bv32 -> word, m: BitMix, k1: bv32, k2: bv32, n: nat)
    requires Agrees(num)
    ensures Numbers(num, Repeat(BitRoundWith(k1, k2), m, n)) == Repeat(RoundWith(num(k1), num(k2)), Numbers(num, m), n)
  {
    var f, g, h := BitRoundWith(k1, k2), RoundWith(num(k1), num(k2)), (x: BitMix) => Numbers(num, x);
    forall x
      ensures Simulates(f, g, h, x)
    {
      RoundAgrees(num, x, k1, k2);
    }
    RepeatSimulates(f, g, h, m, n);
  }

  // ---------------------------------------------------------------- whole passes

  lemma MixOnVectors(
    num: bv32 -> word, key: seq<byte>, rounds: nat, i: nat, m: BitMix, k1: bv32, k2: bv32, mixed: BitMix)
    requires Agrees(num) && key != [] && num(k1) == key[i % |key|] && num(k2) == key[(i + 1) % |key|]
    requires mixed == Repeat(BitRoundWith(k1, k2), m, rounds)
    ensures Simple(key, rounds).mix(Numbers(num, m), i) == Numbers(num, mixed)
  {
    RoundsAgree(num, m, k1, k2, rounds);
  }

  lemma MaskOnVectors(num: bv32 -> word, b: bv32, c: bv32, x: byte, y: byte)
    requires Agrees(num) && num(b) == x && num(c) == y
    ensures num(Xor32(b, c)) == XorBytes(x, y)
  {
    assert Binary(num, b, c);
  }

  lemma FeedOnVectors(num: bv32 -> word, mixed: BitMix, d: bv32, z: byte, fed: BitMix)
    requires Agrees(num) && num(d) == z && fed == mixed.(sum := Sum32(mixed.sum, d))
    ensures Fed(Numbers(num, mixed), z) == Numbers(num, fed)
  {
    assert Binary(num, mixed.sum, d);
  }

  /** A pass of the outer loop when encrypting, on vectors: b is the byte, c the low byte of
      the mixed state. */
  lemma PassOnVectors(
    num: bv32 -> word, key: seq<byte>, rounds: nat, i: nat, m: BitMix, k1: bv32, k2: bv32, mixed: BitMix,
    b: bv32, x: byte, c: bv32, d: bv32, fed: BitMix)
    requires Agrees(num) && key != [] && num(k1) == key[i % |key|] && num(k2) == key[(i + 1) % |key|]
    requires mixed == Repeat(BitRoundWith(k1, k2), m, rounds) && num(b) == x && num(c) == LowByte(num(mixed.v1))
    requires d == Xor32(b, c) && fed == mixed.(sum := Sum32(mixed.sum, d))
    ensures num(d) < 256 && Pass(Simple(key, rounds), true, i, Numbers(num, m), x, num(d), Numbers(num, fed))
  {
    MixOnVectors(num, key, rounds, i, m, k1, k2, mixed);
    var y: byte := num(c);
    MaskOnVectors(num, b, c, x, y);
    var z := XorBytes(x, y);
    FeedOnVectors(num, mixed, d, z, fed);
  }

  /** The numbering, with its bound in the type. */
  function Value(w: bv32): word {
    ValueFits(w);
    Number(w)
  }

  lemma ValueFits(w: bv32)
    ensures Number(w) < TWO_TO_THE_32
  {
    NumberIsLawful(Number);
    assert Counts(Number, w);
  }

  lemma ValueAgrees()
    ensures Same(Number, Value) && Agrees(Value)
  {
    NumberIsLawful(Number);
    LawfulAgrees(Number, Value);
  }

  /** Any number of rounds on vectors ends in the vectors of the rounds on numbers. */
  lemma RoundsOnVectors(m: BitMix, k1: bv32, k2: bv32, rounds: nat)
    ensures Numbers(Value, Repeat(BitRoundWith(k1, k2), m, rounds))
      == Repeat(RoundWith(Value(k1), Value(k2)), Numbers(Value, m), rounds)
  {
    ValueAgrees();
    RoundsAgree(Value, m, k1, k2, rounds);
  }

  // ---------------------------------------------------------------- known answers

  lemma EightTimes<M>(f: M -> M, m: M, m1: M, m2: M, m3: M, m4: M, m5: M, m6: M, m7: M, m8: M)
    requires m1 == f(m) && m2 == f(m1) && m3 == f(m2) && m4 == f(m3)
    requires m5 == f(m4) && m6 == f(m5) && m7 == f(m6) && m8 == f(m7)
    ensures Repeat(f, m, 8) == m8
  {
    assert Repeat(f, m, 2) == m2 && Repeat(f, m, 4) == m4 && Repeat(f, m, 6) == m6;
  }

  lemma RoundsOfOne()
    ensures Repeat(BitRoundWith(1, 1), BitMix(0, 0, 0), 8) == BitMix(0x1f8, 0x11c4_0f4f, 0xd4a7_3ed0)
  {
    EightTimes(BitRoundWith(1, 1), BitMix(0, 0, 0),
               BitMix(0x3f, 0x3f, 0x38d), BitMix(0x7e, 0x3d06, 0x3_ef99),
               BitMix(0xbd, 0x3d_53c0, 0x3ed_727c), BitMix(0xfc, 0x3d62_92ed, 0xee8e_1c1c),
               BitMix(0x13b, 0x3e7e_3f64, 0xc6fc_633e), BitMix(0x17a, 0xed8b_f3a7, 0xf954_f40c),
               BitMix(0x1b9, 0x595d_064c, 0xc79c_7903), BitMix(0x1f8, 0x11c4_0f4f, 0xd4a7_3ed0));
  }

  lemma RoundsOfFirst()
    ensures Repeat(BitRoundWith(1, 200), BitMix(0, 0, 0), 8) == BitMix(0x1f8, 0xd4d1_0e85, 0xe45a_c5d1)
  {
    EightTimes(BitRoundWith(1, 200), BitMix(0, 0, 0),
               BitMix(0x3f, 0xf6, 0xe9b), BitMix(0x7e, 0xe88a, 0xe_7840),
               BitMix(0xbd, 0xea_7100, 0xe58_ae2c), BitMix(0xfc, 0xec8a_fcd0, 0x319a_168f),
               BitMix(0x13b, 0x1642_ab17, 0xa474_2192), BitMix(0x17a, 0xfc58_4710, 0xe2b3_1c1d),
               BitMix(0x1b9, 0xcaef_8cbf, 0x44f3_54c1), BitMix(0x1f8, 0xd4d1_0e85, 0xe45a_c5d1));
  }

  lemma RoundsOfSecond()
    ensures Repeat(BitRoundWith(200, 1), BitMix(0x288, 0xd4d1_0e85, 0xe45a_c5d1), 8)
      == BitMix(0x480, 0x1381_d961, 0xf338_fab0)
  {
    EightTimes(BitRoundWith(200, 1), BitMix(0x288, 0xd4d1_0e85, 0xe45a_c5d1),
               BitMix(0x2c7, 0x7ba5_51f4, 0xa688_23f4), BitMix(0x306, 0x46e3_79c6, 0xd16c_1e1f),
               BitMix(0x345, 0x80a_1cf3, 0x5a57_dd47), BitMix(0x384, 0x602_a80b, 0xc070_1cfd),
               BitMix(0x3c3, 0xc775_18bb, 0x768f_55bd), BitMix(0x402, 0xe543_9844, 0x2cdf_5b4a),
               BitMix(0x441, 0xc58f_a87c, 0xc838_b4bb), BitMix(0x480, 0x1381_d961, 0xf338_fab0));
  }


  /** The last four binary digits. */
  lemma Nibble(n: bv32 -> nat, w: bv32)
    requires Lawful(n)
    ensures n(w) == LowBit(w) + 2 * LowBit(w >> 1) + 4 * LowBit(w >> 2) + 8 * LowBit(w >> 3) + 16 * n(w >> 4)
    ensures n(0) == 0
  {
    assert Halves(n, w) && Halves(n, w >> 1) && Halves(n, w >> 2) && Halves(n, w >> 3) && Halves(n, 0);
  }

  lemma BytesOfOne(n: bv32 -> nat)
    requires Lawful(n)
    ensures n(1) == 1 && n(0x41) == 0x41 && n(0xd0) == 0xd0 && n(0x91) == 0x91 && n(0xd4a7_3ed0) % 256 == 0xd0
  {
    Nibble(n, 1);
    Nibble(n, 4);
    Nibble(n, 9);
    Nibble(n, 0xd);
    Nibble(n, 0x41);
    Nibble(n, 0x91);
    Nibble(n, 0xd0);
    Nibble(n, 0xd4a_73ed);
    Nibble(n, 0xd4a7_3ed0);
  }

  lemma BytesOfTwo(n: bv32 -> nat)
    requires Lawful(n)
    ensures n(0xc8) == 0xc8 && n(0xd1) == 0xd1 && n(0x90) == 0x90 && n(0xe45a_c5d1) % 256 == 0xd1
    ensures n(0x42) == 0x42 && n(0xb0) == 0xb0 && n(0xf2) == 0xf2 && n(0xf338_fab0) % 256 == 0xb0
  {
    Nibble(n, 4);
    Nibble(n, 9);
    Nibble(n, 0xb);
    Nibble(n, 0xc);
    Nibble(n, 0xd);
    Nibble(n, 0xf);
    Nibble(n, 0x42);
    Nibble(n, 0x90);
    Nibble(n, 0xb0);
    Nibble(n, 0xc8);
    Nibble(n, 0xd1);
    Nibble(n, 0xf2);
    Nibble(n, 0xe45_ac5d);
    Nibble(n, 0xe45a_c5d1);
    Nibble(n, 0xf33_8fab);
    Nibble(n, 0xf338_fab0);
  }

  /** The passes over one or two bytes, from the start. */
  lemma OnePass(c: Cipher<Mix>, b: byte, d: byte, t: Mix)
    requires Pass(c, true, 0, c.start, b, d, t)
    ensures Crypted(c, [b], true) == [d]
  {
    PassesMakeCrypted(c, [b], true, [c.start, t], [d], 1);
  }

  lemma TwoPasses(c: Cipher<Mix>, b: byte, b': byte, d: byte, d': byte, t: Mix, t': Mix)
    requires Pass(c, true, 0, c.start, b, d, t) && Pass(c, true, 1, t, b', d', t')
    ensures Crypted(c, [b, b'], true) == [d, d']
  {
    PassesMakeCrypted(c, [b, b'], true, [c.start, t, t'], [d, d'], 2);
  }

  lemma PassOfOne(n: bv32 -> nat, num: bv32 -> word, rounds: nat, key: seq<byte>, start: BitMix, fed: BitMix)
    requires Same(n, num) && Agrees(num) && rounds == 8 && key == [1]
    requires start == BitMix(0, 0, 0) && fed == BitMix(Sum32(0x1f8, 0x91), 0x11c4_0f4f, 0xd4a7_3ed0)
    ensures Pass(Simple(key, rounds), true, 0, Numbers(num, start), 0x41, 0x91, Numbers(num, fed))
  {
    BytesOfOne(n);
    RoundsOfOne();
    var mixed := BitMix(0x1f8, 0x11c4_0f4f, 0xd4a7_3ed0);
    PassOnVectors(num, key, rounds, 0, start, 1, 1, mixed, 0x41, 0x41, 0xd0, 0x91, fed);
  }

  lemma OneByte(n: bv32 -> nat, num: bv32 -> word, rounds: nat, key: seq<byte>)
    requires Same(n, num) && Agrees(num) && rounds == 8 && key == [1]
    ensures Crypted(Simple(key, rounds), [0x41], true) == [0x91]
  {
    var start, fed := BitMix(0, 0, 0), BitMix(Sum32(0x1f8, 0x91), 0x11c4_0f4f, 0xd4a7_3ed0);
    PassOfOne(n, num, rounds, key, start, fed);
    Nibble(n, 0);
    OnePass(Simple(key, rounds), 0x41, 0x91, Numbers(num, fed));
  }

  lemma PassOfFirst(n: bv32 -> nat, num: bv32 -> word, rounds: nat, key: seq<byte>, start: BitMix, fed: BitMix)
    requires Same(n, num) && Agrees(num) && rounds == 8 && key == [1, 200]
    requires start == BitMix(0, 0, 0) && fed == BitMix(0x288, 0xd4d1_0e85, 0xe45a_c5d1)
    ensures Pass(Simple(key, rounds), true, 0, Numbers(num, start), 0x41, 0x90, Numbers(num, fed))
  {
    BytesOfOne(n);
    BytesOfTwo(n);
    RoundsOfFirst();
    var mixed := BitMix(0x1f8, 0xd4d1_0e85, 0xe45a_c5d1);
    PassOnVectors(num, key, rounds, 0, start, 1, 200, mixed, 0x41, 0x41, 0xd1, 0x90, fed);
  }

  lemma PassOfSecond(n: bv32 -> nat, num: bv32 -> word, rounds: nat, key: seq<byte>, start: BitMix, fed: BitMix)
    requires Same(n, num) && Agrees(num) && rounds == 8 && key == [1, 200]
    requires start == BitMix(0x288, 0xd4d1_0e85, 0xe45a_c5d1) && fed == BitMix(0x572, 0x1381_d961, 0xf338_fab0)
    ensures Pass(Simple(key, rounds), true, 1, Numbers(num, start), 0x42, 0xf2, Numbers(num, fed))
  {
    BytesOfOne(n);
    BytesOfTwo(n);
    RoundsOfSecond();
    var mixed := BitMix(0x480, 0x1381_d961, 0xf338_fab0);
    PassOnVectors(num, key, rounds, 1, start, 200, 1, mixed, 0x42, 0x42, 0xb0, 0xf2, fed);
  }

  lemma TwoBytes(n: bv32 -> nat, num: bv32 -> word, rounds: nat, key: seq<byte>)
    requires Same(n, num) && Agrees(num) && rounds == 8 && key == [1, 200]
    ensures Crypted(Simple(key, rounds), [0x41, 0x42], true) == [0x90, 0xf2]
  {
    var start, mid := BitMix(0, 0, 0), BitMix(0x288, 0xd4d1_0e85, 0xe45a_c5d1);
    var end := BitMix(0x572, 0x1381_d961, 0xf338_fab0);
    PassOfFirst(n, num, rounds, key, start, mid);
    PassOfSecond(n, num, rounds, key, mid, end);
    Nibble(n, 0);
    TwoPasses(Simple(key, rounds), 0x41, 0x42, 0x90, 0xf2, Numbers(num, mid), Numbers(num, end));
  }

  /** One byte under a key of one byte, and two bytes under a key of two. */
  lemma KnownAnswers()
    ensures Crypted(Simple([1], ROUNDS), [0x41], true) == [0x91]
    ensures Crypted(Simple([1, 200], ROUNDS), [0x41, 0x42], true) == [0x90, 0xf2]
  {
    ValueAgrees();
    OneByte(Number, Value, ROUNDS, [1]);
    TwoBytes(Number, Value, ROUNDS, [1, 200]);
  }
}
