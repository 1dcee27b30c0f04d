/** Cardinality facts: the pigeonhole arguments behind the bounds on dialers and sends. */
module Counting {

  ghost predicate Distinct<T>(q: seq<T>) {
    forall i, j :: 0 <= i < j < |q| ==> q[i] != q[j]
  }

  /** The numbers below n. */
  function Below(n: nat): (r: set<nat>)
    ensures forall i :: i in r <==> 0 <= i < n
    ensures |r| == n
  {
    if n == 0 then {} else Below(n - 1) + {n - 1}
  }

  function Elements(q: seq<nat>): (r: set<nat>)
    ensures forall x :: x in r <==> x in q
  {
    set x | x in q
  }

  lemma SubsetSize<T>(a: set<T>, b: set<T>)
    requires a <= b
    ensures |a| <= |b|
    ensures |a| == |b| ==> a == b
  {
    assert b == a + (b - a);
    assert |b| == |a| + |b - a|;
  }

  lemma {:induction false} DistinctSize(q: seq<nat>)
    requires Distinct(q)
    ensures |Elements(q)| == |q|
  {
    if q == [] {
    } else {
      var last := |q| - 1;
      DistinctSize(q[..last]);
      assert q == q[..last] + [q[last]];
      assert Elements(q) == Elements(q[..last]) + {q[last]};
    }
  }

  lemma DistinctOnce(q: seq<nat>, x: nat)
    requires Distinct(q) && x in q
    ensures multiset(q)[x] == 1
  {
    var i :| 0 <= i < |q| && q[i] == x;
    assert q == q[..i] + [x] + q[i + 1..];
    assert x !in q[..i] && x !in q[i + 1..];
  }

  /** Distinct numbers below n are at most n, and n of them are all of them. */
  lemma Pigeonhole(q: seq<nat>, n: nat)
    requires Distinct(q) && forall x | x in q :: x < n
    ensures |q| <= n
    ensures |q| == n ==> forall x: nat | x < n :: x in q
  {
    DistinctSize(q);
    SubsetSize(Elements(q), Below(n));
    assert |q| == n ==> Elements(q) == Below(n);
  }

  /** Distinct numbers below n, one of which is missing, are fewer than n. */
  lemma PigeonholeMissing(q: seq<nat>, n: nat, missing: nat)
    requires Distinct(q) && (forall x | x in q :: x < n) && missing < n && missing !in q
    ensures |q| < n
  {
    Pigeonhole(q, n);
  }

  /** A set that some function maps one-to-one below a bound is no larger than the bound. */
  lemma InjectionSize(a: set<nat>, f: nat -> nat, bound: nat)
    requires forall x | x in a :: f(x) < bound
    requires forall x, y | x in a && y in a && f(x) == f(y) :: x == y
    ensures |a| <= bound
  {
    ImageSize(a, f);
    SubsetSize(set x | x in a :: f(x), Below(bound));
  }

  lemma {:induction false} ImageSize(a: set<nat>, f: nat -> nat)
    requires forall x, y | x in a && y in a && f(x) == f(y) :: x == y
    ensures |set x | x in a :: f(x)| == |a|
    decreases a
  {
    if a == {} {
    } else {
      var x :| x in a;
      var rest := a - {x};
      ImageSize(rest, f);
      assert (set y | y in a :: f(y)) == (set y | y in rest :: f(y)) + {f(x)};
    }
  }
}
