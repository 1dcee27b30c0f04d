/** Stream ciphers that feed their ciphertext back into a running state: what the loop of
    SimpleCrypt in cipher2/crypt.go relies on, whatever its mixing function is. */
module FeedbackCipher {
  import opened Bytes
  import Words

  /** From `start`, the state is mixed at every index, gives a mask for the byte there, and
      is fed the ciphertext byte. */
  datatype Cipher<!S> = Cipher(start: S, mix: (S, nat) -> S, mask: S -> byte, feed: (S, byte) -> S)

  /** The state before byte i. What is fed is the output when encrypting, and the input when
      decrypting. */
  function StateAt<S>(c: Cipher<S>, data: seq<byte>, encrypt: bool, i: nat): S
    requires i <= |data|
  {
    if i == 0 then c.start
    else
      var s := c.mix(StateAt(c, data, encrypt, i - 1), i - 1);
      c.feed(s, if encrypt then XorBytes(data[i - 1], c.mask(s)) else data[i - 1])
  }

  function ByteAt<S>(c: Cipher<S>, data: seq<byte>, encrypt: bool, i: nat): byte
    requires i < |data|
  {
    XorBytes(data[i], c.mask(c.mix(StateAt(c, data, encrypt, i), i)))
  }

  function Crypted<S>(c: Cipher<S>, data: seq<byte>, encrypt: bool): (r: seq<byte>)
    ensures |r| == |data|
  {
    seq(|data|, i requires 0 <= i < |data| => ByteAt(c, data, encrypt, i))
  }

  /** One pass of the loop at index i: byte b and state s become byte d and state t. */
  ghost predicate Pass<S(!new)>(c: Cipher<S>, encrypt: bool, i: nat, s: S, b: byte, d: byte, t: S) {
    var m := c.mix(s, i);
    d == XorBytes(b, c.mask(m)) && t == c.feed(m, if encrypt then d else b)
  }

  /** A run of passes through `states` makes the output that Crypted says. */
  lemma {:induction false} PassesMakeCrypted<S(!new)>(
    c: Cipher<S>, data: seq<byte>, encrypt: bool, states: seq<S>, output: seq<byte>, n: nat)
    requires n <= |data| && |output| == |data| && |states| == |data| + 1 && states[0] == c.start
    requires forall i: nat | i < |data| :: Pass(c, encrypt, i, states[i], data[i], output[i], states[i + 1])
    ensures states[n] == StateAt(c, data, encrypt, n)
    ensures output[..n] == Crypted(c, data, encrypt)[..n]
  {
    if n > 0 {
      PassesMakeCrypted(c, data, encrypt, states, output, n - 1);
      assert Pass(c, encrypt, n - 1, states[n - 1], data[n - 1], output[n - 1], states[n]);
      assert output[..n] == output[..n - 1] + [output[n - 1]];
      assert Crypted(c, data, encrypt)[..n] == Crypted(c, data, encrypt)[..n - 1] + [ByteAt(c, data, encrypt, n - 1)];
    }
  }

  lemma XorTwice(a: byte, b: byte)
    ensures XorBytes(XorBytes(a, b), b) == a
  {
    Words.XorCancels(a, b);
  }

  /** A run in one direction and a run in the other on its output carry the same state at
      every index. */
  lemma {:induction false} SameStates<S>(c: Cipher<S>, data: seq<byte>, encrypt: bool, i: nat)
    requires i <= |data|
    ensures StateAt(c, Crypted(c, data, encrypt), !encrypt, i) == StateAt(c, data, encrypt, i)
  {
    if i > 0 {
      SameStates(c, data, encrypt, i - 1);
      XorTwice(data[i - 1], c.mask(c.mix(StateAt(c, data, encrypt, i - 1), i - 1)));
    }
  }

  /** Decrypting undoes encrypting, and encrypting undoes decrypting, for every byte string. */
  lemma CryptUndoesItself<S>(c: Cipher<S>, data: seq<byte>, encrypt: bool)
    ensures Crypted(c, Crypted(c, data, encrypt), !encrypt) == data
  {
    forall i: nat | i < |data|
      ensures Crypted(c, Crypted(c, data, encrypt), !encrypt)[i] == data[i]
    {
      SameStates(c, data, encrypt, i);
      XorTwice(data[i], c.mask(c.mix(StateAt(c, data, encrypt, i), i)));
    }
  }

  lemma {:induction false} StateIsCausal<S>(c: Cipher<S>, a: seq<byte>, b: seq<byte>, encrypt: bool, i: nat)
    requires i <= |a| && i <= |b| && a[..i] == b[..i]
    ensures StateAt(c, a, encrypt, i) == StateAt(c, b, encrypt, i)
  {
    if i > 0 {
      assert a[..i][..i - 1] == a[..i - 1] && b[..i][..i - 1] == b[..i - 1];
      StateIsCausal(c, a, b, encrypt, i - 1);
      assert a[i - 1] == a[..i][i - 1] && b[i - 1] == b[..i][i - 1];
    }
  }

  /** Byte i of the output depends on bytes 0 .. i of the input only, and tells inputs apart
      that first differ there. */
  lemma OutputIsCausal<S>(c: Cipher<S>, a: seq<byte>, b: seq<byte>, encrypt: bool, i: nat)
    requires i < |a| && i < |b| && a[..i] == b[..i]
    ensures Crypted(c, a, encrypt)[i] == Crypted(c, b, encrypt)[i] <==> a[i] == b[i]
  {
    StateIsCausal(c, a, b, encrypt, i);
    var mask := c.mask(c.mix(StateAt(c, a, encrypt, i), i));
    XorTwice(a[i], mask);
    XorTwice(b[i], mask);
  }
}
