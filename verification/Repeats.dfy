/** What the filter of netserve/context.go keeps of a sequence of request numbers. */
module Repeats {

  /** Whether the filter lets a number through after `previous`, the one before it. */
  predicate Accepts(previous: nat, number: nat) {
    previous == 0 || previous != number
  }

  /** A sequence without its adjacent nonzero repeats. */
  function Squeeze(ns: seq<nat>): seq<nat> {
    if ns == [] then []
    else
      var before, n := ns[..|ns| - 1], ns[|ns| - 1];
      if before != [] && before[|before| - 1] == n && n != 0 then Squeeze(before) else Squeeze(before) + [n]
  }

  lemma SqueezeSnoc(ns: seq<nat>, n: nat)
    requires ns != []
    ensures Squeeze([n]) == [n]
    ensures Squeeze(ns + [n]) == Squeeze(ns) + (if ns[|ns| - 1] == n && n != 0 then [] else [n])
  {
  }

  /** One more number n, kept unless it repeats, after a first number that stands before all. */
  lemma SqueezeStep(first: nat, all: seq<nat>, kept: seq<nat>, n: nat, keep: bool)
    requires [first] + kept == Squeeze([first] + all)
    requires keep <==> ([first] + all)[|all|] != n || n == 0
    ensures [first] + (if keep then kept + [n] else kept) == Squeeze([first] + (all + [n]))
  {
    assert [first] + (all + [n]) == ([first] + all) + [n];
    SqueezeSnoc([first] + all, n);
    assert [first] + (kept + [n]) == ([first] + kept) + [n];
  }
}
