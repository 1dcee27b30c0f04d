/** SimpleCrypt of cipher2/crypt.go: a feedback cipher whose state is mixed by eight rounds of
    shifts, sums and exclusive ors on 32-bit words. */
module SimpleCrypt {
  import opened Bytes
  import opened FeedbackCipher
  import opened Words

  /** A uint32. */
  type word = x: nat | x < TWO_TO_THE_32

  /** Sum, and shifts to the left by 4 and to the right by 5, of 32-bit words. */
  function Plus(a: nat, b: nat): word {
    (a + b) % TWO_TO_THE_32
  }

  function Left4(a: word): word {
    (16 * a) % TWO_TO_THE_32
  }

  function Right5(a: word): word {
    a / 32
  }

  /** The running values of the loop. */
  datatype Mix = Mix(sum: word, v0: word, v1: word)

  const DELTA: word := 0x3f

  function Spread(v: word, sum: word, k1: word, k2: word): nat {
    Xor(Xor(Plus(Left4(v), k1), Plus(v, sum)), Plus(Right5(v), k2))
  }

  /** One pass of the inner loop. */
  function Round(m: Mix, k1: word, k2: word): Mix {
    var sum := Plus(m.sum, DELTA);
    var v0 := Plus(m.v0, Spread(m.v1, sum, k1, k2));
    Mix(sum, v0, Plus(m.v1, Spread(v0, sum, k1, k2)))
  }

  /** The pass with two given bytes of the key. */
  function RoundWith(k1: word, k2: word): Mix -> Mix {
    (m: Mix) => Round(m, k1, k2)
  }

  function Repeat<M>(pass: M -> M, m: M, n: nat): M {
    if n == 0 then m else pass(Repeat(pass, m, n - 1))
  }

  function Mixed(m: Mix, key: seq<byte>, i: nat, rounds: nat): Mix
    requires key != []
  {
    Repeat(RoundWith(key[i % |key|], key[(i + 1) % |key|]), m, rounds)
  }

  /** Go's byte(v). */
  function LowByte(v: word): byte {
    v % 256
  }

  function Fed(m: Mix, b: byte): Mix {
    m.(sum := Plus(m.sum, b))
  }

  /** The cipher with a given number of rounds for each byte; the code has eight. */
  function Simple(key: seq<byte>, rounds: nat): Cipher<Mix>
    requires key != []
  {
    Cipher(Mix(0, 0, 0),
           (m: Mix, i: nat) => Mixed(m, key, i, rounds),
           (m: Mix) => LowByte(m.v1),
           (m: Mix, b: byte) => Fed(m, b))
  }

  method InnerLoop(m: Mix, key: seq<byte>, i: nat, rounds: nat) returns (r: Mix)
    requires key != []
    ensures r == Simple(key, rounds).mix(m, i)
  {
    var k1, k2 := key[i % |key|], key[(i + 1) % |key|];
    var sum, v0, v1 := m.sum, m.v0, m.v1;
    for j := 0 to rounds
      invariant Mix(sum, v0, v1) == Repeat(RoundWith(k1, k2), m, j)
    {
      sum := Plus(sum, DELTA);
      v0 := Plus(v0, Spread(v1, sum, k1, k2));
      v1 := Plus(v1, Spread(v0, sum, k1, k2));
    }
    r := Mix(sum, v0, v1);
  }

  /** One pass of the outer loop: mixes, masks the byte and feeds the ciphertext byte back, in
      the order of the direction. */
  method CryptByte(b: byte, m: Mix, key: seq<byte>, i: nat, encrypt: bool, rounds: nat) returns (d: byte, r: Mix)
    requires key != []
    ensures Pass(Simple(key, rounds), encrypt, i, m, b, d, r)
  {
    d := b;
    r := InnerLoop(m, key, i, rounds);
    if encrypt {
      d := XorBytes(d, LowByte(r.v1));
      r := Fed(r, d);
    } else {
      r := Fed(r, d);
      d := XorBytes(d, LowByte(r.v1));
    }
  }

  /** The loop over the bytes, with the number of rounds as an argument. */
  method CryptWith(data: array<byte>, key: seq<byte>, encrypt: bool, rounds: nat)
    requires key != []
    modifies data
    ensures data[..] == Crypted(Simple(key, rounds), old(data[..]), encrypt)
  {
    ghost var input, c := data[..], Simple(key, rounds);
    var m := Mix(0, 0, 0);
    ghost var states := [m];
    for i := 0 to data.Length
      invariant |states| == i + 1 && states[0] == c.start && states[i] == m
      invariant forall k: nat | k < i :: Pass(c, encrypt, k, states[k], input[k], data[k], states[k + 1])
      invariant forall k | i <= k < data.Length :: data[k] == input[k]
    {
      data[i], m := CryptByte(data[i], m, key, i, encrypt, rounds);
      states := states + [m];
    }
    PassesMakeCrypted(c, input, encrypt, states, data[..], data.Length);
  }

  const ROUNDS: nat := 8

  // ---------------------------------------------------------------- the running sum

  lemma AddTwice(n: nat, m: nat, a: nat, b: nat)
    requires m == n % TWO_TO_THE_32
    ensures ((m + a) % TWO_TO_THE_32 + b) % TWO_TO_THE_32 == (n + a + b) % TWO_TO_THE_32
  {
  }

  /** A pass of the inner loop adds 0x3f to the sum. */
  ghost predicate AddsDelta(pass: Mix -> Mix, m: Mix) {
    pass(m).sum == (m.sum + 0x3f) % TWO_TO_THE_32
  }

  lemma {:induction false} RepeatedSum(pass: Mix -> Mix, m: Mix, n: nat)
    requires forall x :: AddsDelta(pass, x)
    ensures Repeat(pass, m, n).sum == (m.sum + 0x3f * n) % TWO_TO_THE_32
  {
    if n > 0 {
      RepeatedSum(pass, m, n - 1);
      var before := Repeat(pass, m, n - 1);
      assert AddsDelta(pass, before);
      AddTwice(m.sum + 0x3f * (n - 1), before.sum, 0x3f, 0);
    }
  }

  function Total(s: seq<byte>): nat {
    if s == [] then 0 else Total(s[..|s| - 1]) + s[|s| - 1]
  }

  /** A pass over a byte adds `step` and the ciphertext byte b to the sum. */
  ghost predicate Sums(c: Cipher<Mix>, step: nat, m: Mix, i: nat, b: byte) {
    c.feed(c.mix(m, i), b).sum == (m.sum + step + b) % TWO_TO_THE_32
  }

  lemma MixedSum(m: Mix, key: seq<byte>, i: nat, rounds: nat)
    requires key != []
    ensures Mixed(m, key, i, rounds).sum == (m.sum + 0x3f * rounds) % TWO_TO_THE_32
  {
    var pass := RoundWith(key[i % |key|], key[(i + 1) % |key|]);
    forall x
      ensures AddsDelta(pass, x)
    {
    }
    RepeatedSum(pass, m, rounds);
  }

  lemma SimpleSumsAt(key: seq<byte>, rounds: nat, m: Mix, i: nat, b: byte)
    requires key != []
    ensures Sums(Simple(key, rounds), 0x3f * rounds, m, i, b)
  {
    var mixed := Mixed(m, key, i, rounds);
    assert Simple(key, rounds).mix(m, i) == mixed;
    assert Simple(key, rounds).feed(mixed, b) == Fed(mixed, b);
    FedSum(m, key, i, rounds, b);
  }

  lemma FedSum(m: Mix, key: seq<byte>, i: nat, rounds: nat, b: byte)
    requires key != []
    ensures Fed(Mixed(m, key, i, rounds), b).sum == (m.sum + 0x3f * rounds + b) % TWO_TO_THE_32
  {
    MixedSum(m, key, i, rounds);
    FedAdds(Mixed(m, key, i, rounds), m.sum, 0x3f * rounds, b);
  }

  lemma FedAdds(mixed: Mix, sum: nat, step: nat, b: byte)
    requires mixed.sum == (sum + step) % TWO_TO_THE_32
    ensures Fed(mixed, b).sum == (sum + step + b) % TWO_TO_THE_32
  {
  }

  lemma SimpleSums(key: seq<byte>, rounds: nat)
    requires key != []
    ensures forall m: Mix, i: nat, b: byte :: Sums(Simple(key, rounds), 0x3f * rounds, m, i, b)
  {
    forall m: Mix, i: nat, b: byte
      ensures Sums(Simple(key, rounds), 0x3f * rounds, m, i, b)
    {
      SimpleSumsAt(key, rounds, m, i, b);
    }
  }

  lemma {:induction false} SumsAdd(
    c: Cipher<Mix>, step: nat, data: seq<byte>, encrypt: bool, cipher: seq<byte>, i: nat)
    requires c.start.sum == 0 && i <= |data| && cipher == if encrypt then Crypted(c, data, true) else data
    requires forall m: Mix, k: nat, b: byte :: Sums(c, step, m, k, b)
    ensures StateAt(c, data, encrypt, i).sum == (step * i + Total(cipher[..i])) % TWO_TO_THE_32
  {
    if i > 0 {
      SumsAdd(c, step, data, encrypt, cipher, i - 1);
      var before, b := StateAt(c, data, encrypt, i - 1), cipher[i - 1];
      assert StateAt(c, data, encrypt, i) == c.feed(c.mix(before, i - 1), b);
      assert Sums(c, step, before, i - 1, b);
      assert cipher[..i][..i - 1] == cipher[..i - 1];
      NextSum(step, i, Total(cipher[..i - 1]), b, before.sum);
    }
  }

  lemma NextSum(step: nat, i: nat, total: nat, b: nat, sum: nat)
    requires i > 0 && sum == (step * (i - 1) + total) % TWO_TO_THE_32
    ensures (sum + step + b) % TWO_TO_THE_32 == (step * i + (total + b)) % TWO_TO_THE_32
  {
    var p, q := step * (i - 1), step * i;
    assert q == p + step;
    AddTwice(p + total, sum, step + b, 0);
  }

  lemma SumWith(key: seq<byte>, rounds: nat, data: seq<byte>, encrypt: bool, cipher: seq<byte>, i: nat)
    requires key != [] && i <= |data|
    requires cipher == if encrypt then Crypted(Simple(key, rounds), data, true) else data
    ensures StateAt(Simple(key, rounds), data, encrypt, i).sum
      == (0x3f * rounds * i + Total(cipher[..i])) % TWO_TO_THE_32
  {
    SimpleSums(key, rounds);
    SumsAdd(Simple(key, rounds), 0x3f * rounds, data, encrypt, cipher, i);
  }

  /** Before byte i the sum is that of 504, eight times the constant of the rounds, for each
      byte before it and of the ciphertext bytes there, in either direction. */
  lemma SumBefore(key: seq<byte>, data: seq<byte>, encrypt: bool, cipher: seq<byte>, i: nat)
    requires key != [] && i <= |data|
    requires cipher == if encrypt then Crypted(Simple(key, ROUNDS), data, true) else data
    ensures StateAt(Simple(key, ROUNDS), data, encrypt, i).sum == (504 * i + Total(cipher[..i])) % TWO_TO_THE_32
  {
    SumWith(key, ROUNDS, data, encrypt, cipher, i);
  }

  /** SimpleCrypt itself; `ok` is false where an empty key makes Go divide by zero. */
  method Crypt(data: array<byte>, key: seq<byte>, encrypt: bool) returns (ok: bool)
    modifies data
    ensures ok <==> key != [] || data.Length == 0
    ensures data[..] == if key == [] then old(data[..]) else Crypted(Simple(key, ROUNDS), old(data[..]), encrypt)
  {
    ok := key != [] || data.Length == 0;
    if key != [] {
      CryptWith(data, key, encrypt, ROUNDS);
    }
  }

  /** Encrypting and then decrypting in place, or the reverse, restores every buffer under
      every key that is not empty. */
  method CryptTwice(data: array<byte>, key: seq<byte>, encrypt: bool)
    requires key != []
    modifies data
    ensures data[..] == old(data[..])
  {
    var ok := Crypt(data, key, encrypt);
    ok := Crypt(data, key, !encrypt);
    CryptUndoesItself(Simple(key, ROUNDS), old(data[..]), encrypt);
  }
}
