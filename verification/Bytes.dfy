/** Bytes, their exclusive or, and little-endian integers of a given width. */
module Bytes {
  import opened Division
  import opened Words

  type byte = x: nat | x < 256

  /** A Go string. */
  type text = seq<byte>

  /** The bytes of a text in ASCII. */
  function Ascii(s: string): (r: text)
    requires forall i | 0 <= i < |s| :: s[i] < 128 as char
    ensures |r| == |s| && forall i | 0 <= i < |s| :: r[i] == s[i] as nat
  {
    seq(|s|, i requires 0 <= i < |s| => s[i] as nat)
  }

  function XorBytes(a: byte, b: byte): byte {
    XorBound(a, b, 8);
    Xor(a, b)
  }

  function XorSeq(s: seq<byte>, t: seq<byte>): (r: seq<byte>)
    requires |s| == |t|
    ensures |r| == |s|
  {
    seq(|s|, i requires 0 <= i < |s| => XorBytes(s[i], t[i]))
  }

  lemma XorSeqCancels(s: seq<byte>, t: seq<byte>)
    requires |s| == |t|
    ensures XorSeq(XorSeq(s, t), t) == s
  {
    forall i | 0 <= i < |s|
      ensures XorBytes(XorBytes(s[i], t[i]), t[i]) == s[i]
    {
      XorCancels(s[i], t[i]);
    }
  }

  function Pow256(k: nat): (r: nat)
    ensures r > 0
  {
    if k == 0 then 1 else 256 * Pow256(k - 1)
  }

  /** The low k bytes of n, least significant first: what a conversion to a k-byte word and
      a little-endian write leave of it. */
  function Le(n: nat, k: nat): (r: seq<byte>)
    ensures |r| == k
  {
    if k == 0 then [] else [n % 256] + Le(n / 256, k - 1)
  }

  function FromLe(s: seq<byte>): (n: nat)
    ensures n < Pow256(|s|)
  {
    if s == [] then 0 else s[0] + 256 * FromLe(s[1..])
  }

  lemma {:induction false} FromLeOfLe(n: nat, k: nat)
    requires n < Pow256(k)
    ensures FromLe(Le(n, k)) == n
  {
    if k > 0 {
      assert n / 256 < Pow256(k - 1);
      FromLeOfLe(n / 256, k - 1);
      assert Le(n, k)[1..] == Le(n / 256, k - 1);
    }
  }

  lemma {:induction false} LeOfFromLe(s: seq<byte>)
    ensures Le(FromLe(s), |s|) == s
  {
    if s != [] {
      LeOfFromLe(s[1..]);
      var n, m := FromLe(s), FromLe(s[1..]);
      assert n % 256 == s[0] && n / 256 == m;
    }
  }

  /** Little endian: a byte behind others weighs 256 to the power of their number. */
  lemma {:induction false} FromLeSnoc(s: seq<byte>, b: byte)
    ensures FromLe(s + [b]) == FromLe(s) + b * Pow256(|s|)
  {
    if s == [] {
      assert [b][1..] == [];
    } else {
      FromLeSnoc(s[1..], b);
      assert (s + [b])[1..] == s[1..] + [b];
      Weighs(s[0], FromLe(s[1..]), b, Pow256(|s| - 1));
    }
  }

  lemma Weighs(first: nat, rest: nat, b: nat, p: nat)
    ensures first + 256 * (rest + b * p) == first + 256 * rest + b * (256 * p)
  {
  }

  /** Writing a number into fewer bytes than it needs keeps it modulo the width. */
  lemma {:induction false} LeTruncates(n: nat, k: nat)
    ensures FromLe(Le(n, k)) == n % Pow256(k)
  {
    if k > 0 {
      LeTruncates(n / 256, k - 1);
      assert Le(n, k)[1..] == Le(n / 256, k - 1);
      ModDigits(n, Pow256(k - 1));
    }
  }

  lemma ModDigits(n: nat, p: nat)
    requires p > 0
    ensures n % (256 * p) == n % 256 + 256 * (n / 256 % p)
  {
    var m := n / 256;
    DivMod(m, p);
    var q, r := m / p, m % p;
    assert n == 256 * (q * p + r) + n % 256;
    assert q * (256 * p) == 256 * (q * p);
    DivUnique(n, 256 * p, q, n % 256 + 256 * r);
  }

  lemma Widths()
    ensures Pow256(4) == TWO_TO_THE_32 && Pow256(8) == TWO_TO_THE_64
  {
  }
}
