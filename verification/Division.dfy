/** Division with a variable divisor, which the verifier does not reason about by itself. */
module Division {

  lemma MulGrows(n: int, p: nat)
    requires n >= 1
    ensures n * p >= p
  {
  }

  lemma MulSub(a: int, b: int, p: int)
    ensures (a - b) * p == a * p - b * p
  {
  }

  /** Quotient and remainder are the only pair that fits. */
  lemma DivUnique(x: int, p: nat, q: int, r: nat)
    requires x == q * p + r && r < p
    ensures x / p == q && x % p == r
  {
    var d, m := x / p, x % p;
    assert x == d * p + m;
    if q > d {
      MulSub(q, d, p);
      MulGrows(q - d, p);
    } else if q < d {
      MulSub(d, q, p);
      MulGrows(d - q, p);
    }
  }

  lemma DivMod(x: int, p: nat)
    requires p > 0
    ensures x == x / p * p + x % p && 0 <= x % p < p
  {
  }

  lemma AddMultiple(x: int, k: int, p: nat)
    requires p > 0
    ensures (x + k * p) / p == x / p + k && (x + k * p) % p == x % p
  {
    DivMod(x, p);
    assert (x / p + k) * p == x / p * p + k * p;
    DivUnique(x + k * p, p, x / p + k, x % p);
  }

  lemma AddSmall(x: int, r: nat, p: nat)
    requires p > 0 && r <= p - x % p
    ensures (x + r) % p == if r == p - x % p then 0 else x % p + r
    ensures (x + r) / p == x / p + if r == p - x % p then 1 else 0
  {
    DivMod(x, p);
    if r == p - x % p {
      assert (x / p + 1) * p == x / p * p + p;
      DivUnique(x + r, p, x / p + 1, 0);
    } else {
      DivUnique(x + r, p, x / p, x % p + r);
    }
  }
}
