/** The CUID generator of dbutils/dbtype.go: a goroutine that packs the seconds since 2018, a
    counter and a device id into one int64 and hands the ids out one by one. The counter
    goes on counting from second to second, and wraps only on a pass in the same second as
    the one before. */
module Cuid {
  import opened Counting
  import opened Outcomes
  import opened Words

  const TIME_MAX := 0x1FFFFFFFF
  const COUNTER_MAX := 0xFFFF
  const DEV_ID_MAX := 0x3FFF

  /** The counter takes the values 1 .. COUNTER_MAX - 1 in turn within a second. */
  const CYCLE := 0xFFFE

  datatype Gen = Gen(lastTime: int, counter: nat, lastCounter: nat)

  const START := Gen(0, 0, 0)

  function Advance(g: Gen, now: int): Gen {
    if g.lastTime != now then Gen(now, g.counter + 1, g.counter + 1)
    else g.(counter := if g.counter + 1 >= COUNTER_MAX then 1 else g.counter + 1)
  }

  /** A same-second pass that comes back to the first counter of the second gives no id. */
  predicate Skips(g: Gen, now: int) {
    g.lastTime == now && Advance(g, now).counter == g.lastCounter
  }

  /** | 33 bits of time | 16 bits of counter | 14 bits of device id | */
  function Pack(now: nat, counter: nat, dev: nat): nat {
    Or(Or(now * 0x4000_0000, counter * 0x4000), dev)
  }

  class Generator {
    const dev: nat
    var lastTime: int
    var counter: nat
    var lastCounter: nat

    constructor (dev: nat)
      ensures Value() == START && this.dev == dev
    {
      this.dev := dev;
      lastTime, counter, lastCounter := 0, 0, 0;
    }

    function Value(): Gen
      reads this
    {
      Gen(lastTime, counter, lastCounter)
    }

    /** One pass of the generator loop: no id on a skipped pass, a panic on a clock that
        is out of range. */
    method Pass(now: int) returns (r: Result<Option<nat>>)
      modifies this
      ensures r.Panicked? <==> !(0 <= now < 0x1_FFFF_FFFF)
      ensures r.Panicked? ==> Value() == old(Value())
      ensures r.Returned? ==> Value() == Advance(old(Value()), now)
      ensures r.Returned? ==>
        r.value == if Skips(old(Value()), now) then None else Some(Pack(now, Value().counter, dev))
    {
      if now < 0 || now >= TIME_MAX {
        return Panicked;
      }
      counter := counter + 1;
      if lastTime != now {
        lastCounter := counter;
        lastTime := now;
      } else {
        if counter >= COUNTER_MAX {
          counter := 1;
        }
        if counter == lastCounter {
          return Returned(None);
        }
      }
      r := Returned(Some(Pack(now, counter, dev)));
    }

    /** The goroutine over a whole run of the clock: it gives the ids of the passes before the
        first reading that is out of range, which ends it, and none for a device id that does
        not fit its field. */
    method Run(clock: seq<int>) returns (ids: seq<nat>, ok: bool)
      requires Value() == START
      modifies this
      ensures ok <==> dev <= 0x3FFF && forall i | 0 <= i < |clock| :: InRange(clock[i])
      ensures dev > 0x3FFF ==> ids == []
      ensures dev <= 0x3FFF ==> exists n :: Passes(clock, n) && ids == Emitted(clock, dev, n)
    {
      ids := [];
      if dev > DEV_ID_MAX {
        return ids, false;
      }
      for i := 0 to |clock|
        invariant forall k | 0 <= k < i :: InRange(clock[k])
        invariant Value() == StateAt(clock, i)
        invariant ids == Emitted(clock, dev, i)
      {
        var r := Pass(clock[i]);
        if r.Panicked? {
          assert Passes(clock, i);
          return ids, false;
        }
        if r.value.Some? {
          ids := ids + [r.value.value];
        }
      }
      assert Passes(clock, |clock|);
      ok := true;
    }
  }

  predicate InRange(now: int) {
    0 <= now < 0x1_FFFF_FFFF
  }

  /** The first n readings of the clock are in range, and the next one, if any, is not. */
  ghost predicate Passes(clock: seq<int>, n: nat) {
    n <= |clock| && (forall i | 0 <= i < n :: InRange(clock[i])) && (n < |clock| ==> !InRange(clock[n]))
  }

  // ------------------------------------------------------------------ whole runs

  /** The generator after the first n passes. */
  function StateAt(clock: seq<int>, n: nat): Gen
    requires n <= |clock|
  {
    if n == 0 then START else Advance(StateAt(clock, n - 1), clock[n - 1])
  }

  predicate EmitsAt(clock: seq<int>, i: nat)
    requires i < |clock|
  {
    !Skips(StateAt(clock, i), clock[i])
  }

  function CounterAt(clock: seq<int>, i: nat): nat
    requires i < |clock|
  {
    StateAt(clock, i + 1).counter
  }

  function IdAt(clock: seq<int>, dev: nat, i: nat): nat
    requires i < |clock| && clock[i] >= 0
  {
    Pack(clock[i], CounterAt(clock, i), dev)
  }

  /** The ids of the first n passes, in the order they are handed out. */
  function Emitted(clock: seq<int>, dev: nat, n: nat): seq<nat>
    requires n <= |clock| && forall i | 0 <= i < n :: 0 <= clock[i]
  {
    if n == 0 then []
    else Emitted(clock, dev, n - 1) + if EmitsAt(clock, n - 1) then [IdAt(clock, dev, n - 1)] else []
  }

  ghost predicate ValidClock(clock: seq<int>) {
    && (forall i | 0 <= i < |clock| :: 0 < clock[i] < 0x1_FFFF_FFFF)
    && (forall i, j | 0 <= i <= j < |clock| :: clock[i] <= clock[j])
  }

  /** The counter stays within the 16 bits the format gives it. */
  ghost predicate CounterFits(clock: seq<int>) {
    forall i | 0 <= i < |clock| :: CounterAt(clock, i) <= 0xFFFF
  }

  /** No second sees more than 65535 passes. */
  ghost predicate WithinBudget(clock: seq<int>) {
    forall i, j | 0 <= i <= j < |clock| && clock[i] == clock[j] :: j - i < 65535
  }

  ghost predicate AllDistinct(clock: seq<int>, dev: nat)
    requires ValidClock(clock)
  {
    forall i: nat, j: nat | i < j < |clock| && EmitsAt(clock, i) && EmitsAt(clock, j) ::
      IdAt(clock, dev, i) != IdAt(clock, dev, j)
  }

  // ------------------------------------------------------------------ the packed format

  lemma BelowTime(now: nat, field: nat)
    requires field < 0x4000_0000
    ensures Or(now * 0x4000_0000, field) == now * 0x4000_0000 + field
  {
    OrAbove30(now, 0, 0, field);
    OrZero(now);
    OrZero(field);
  }

  lemma PackIsSum(now: nat, counter: nat, dev: nat)
    requires counter < 0x1_0000 && dev < 0x4000
    ensures Pack(now, counter, dev) == now * 0x4000_0000 + counter * 0x4000 + dev
  {
    BelowTime(now, counter * 0x4000);
    var high := now * 0x1_0000 + counter;
    OrAbove14(high, 0, 0, dev);
    OrZero(high);
    OrZero(dev);
  }

  /** A well-formed id is a positive int64 whose fields can be read back. */
  lemma PackRoundTrip(now: nat, counter: nat, dev: nat)
    requires now < 0x1_FFFF_FFFF && counter <= 0xFFFF && dev <= 0x3FFF
    ensures var id := Pack(now, counter, dev);
      && 0 <= id < TWO_TO_THE_63
      && (dev > 0 ==> id > 0)
      && id / 0x4000_0000 == now && id / 0x4000 % 0x1_0000 == counter && id % 0x4000 == dev
  {
    PackIsSum(now, counter, dev);
    assert now * 0x4000_0000 + counter * 0x4000 + dev == (now * 0x1_0000 + counter) * 0x4000 + dev;
  }

  // ------------------------------------------------------------------ one second

  /** The first pass of the second that pass i falls in. */
  function First(clock: seq<int>, i: nat): (f: nat)
    requires i < |clock|
    ensures f <= i && clock[f] == clock[i]
    ensures f > 0 ==> clock[f - 1] != clock[f]
    ensures forall k | f <= k <= i :: clock[k] == clock[i]
  {
    if i == 0 || clock[i - 1] != clock[i] then i else First(clock, i - 1)
  }

  /** The counter q passes after the second began with the counter c. */
  function Cycled(c: nat, q: nat): nat {
    if q == 0 then c else 1 + ((if c > CYCLE then CYCLE else c) - 1 + q) % CYCLE
  }

  lemma CycledStep(c: nat, q: nat)
    requires 1 <= c <= COUNTER_MAX
    ensures var k := Cycled(c, q); Cycled(c, q + 1) == if k + 1 >= COUNTER_MAX then 1 else k + 1
  {
  }

  /** Where the generator is in the middle of a second. */
  lemma {:induction false} SecondProceeds(clock: seq<int>, i: nat)
    requires ValidClock(clock) && CounterFits(clock) && i < |clock|
    ensures var f := First(clock, i); var c := CounterAt(clock, f);
      1 <= c <= COUNTER_MAX && StateAt(clock, i + 1) == Gen(clock[i], Cycled(c, i - f), c)
  {
    var f := First(clock, i);
    if i > 0 {
      SecondProceeds(clock, i - 1);
    }
    if f == i {
      SecondBegins(clock, i);
    } else {
      var c := CounterAt(clock, f);
      assert First(clock, i - 1) == f;
      CycledStep(c, i - 1 - f);
      assert StateAt(clock, i + 1) == Advance(StateAt(clock, i), clock[i]);
    }
  }

  /** The first pass of a second takes the counter on, whatever it is. */
  lemma SecondBegins(clock: seq<int>, i: nat)
    requires ValidClock(clock) && CounterFits(clock) && i < |clock| && First(clock, i) == i
    requires i > 0 ==> StateAt(clock, i).lastTime == clock[i - 1]
    ensures var c := CounterAt(clock, i); 1 <= c <= COUNTER_MAX && StateAt(clock, i + 1) == Gen(clock[i], c, c)
  {
    assert StateAt(clock, i + 1) == Advance(StateAt(clock, i), clock[i]);
  }

  /** Within a second two passes give the same counter only if they are whole cycles apart. */
  lemma CycledEqual(c: nat, p: nat, q: nat)
    requires 1 <= c <= COUNTER_MAX && p < q
    ensures p > 0 || c <= CYCLE ==> (Cycled(c, p) == Cycled(c, q) <==> (q - p) % CYCLE == 0)
    ensures p == 0 && c > CYCLE ==> Cycled(c, p) != Cycled(c, q)
  {
  }

  /** A pass is skipped exactly when it is a whole number of cycles after the first pass of
      its second, provided that one started on a counter the cycle comes back to. */
  lemma SkippedExactly(clock: seq<int>, i: nat)
    requires ValidClock(clock) && CounterFits(clock) && i < |clock|
    ensures var f := First(clock, i);
      EmitsAt(clock, i) <==> i == f || CounterAt(clock, f) > CYCLE || (i - f) % CYCLE != 0
  {
    var f := First(clock, i);
    SecondProceeds(clock, i);
    if i > 0 {
      SecondProceeds(clock, i - 1);
    }
    if f < i {
      assert First(clock, i - 1) == f;
      CycledEqual(CounterAt(clock, f), 0, i - f);
    }
  }

  // ------------------------------------------------------------------ uniqueness

  lemma SameSecondDistinct(clock: seq<int>, i: nat, j: nat)
    requires ValidClock(clock) && CounterFits(clock) && WithinBudget(clock)
    requires i < j < |clock| && clock[i] == clock[j] && EmitsAt(clock, i) && EmitsAt(clock, j)
    ensures CounterAt(clock, i) != CounterAt(clock, j)
  {
    var f := First(clock, i);
    FirstShared(clock, i, j);
    SecondProceeds(clock, i);
    SecondProceeds(clock, j);
    SkippedExactly(clock, j);
    CycledEqual(CounterAt(clock, f), i - f, j - f);
    assert j - f < CYCLE + 1;
  }

  lemma {:induction false} FirstShared(clock: seq<int>, i: nat, j: nat)
    requires ValidClock(clock) && i <= j < |clock| && clock[i] == clock[j]
    ensures First(clock, i) == First(clock, j)
    decreases j
  {
  }

  /** Past the budget the second id of the second comes again. */
  lemma OverBudgetRepeats(clock: seq<int>, dev: nat, j: nat)
    requires ValidClock(clock) && CounterFits(clock) && j < |clock|
    requires j - First(clock, j) > CYCLE
    ensures var f := First(clock, j);
      && EmitsAt(clock, f + 1) && EmitsAt(clock, f + 1 + CYCLE)
      && IdAt(clock, dev, f + 1) == IdAt(clock, dev, f + 1 + CYCLE)
  {
    var f := First(clock, j);
    EmitsAfterFirst(clock, f, f + 1);
    EmitsAfterFirst(clock, f, f + 1 + CYCLE);
    CycledEqual(CounterAt(clock, f), 1, 1 + CYCLE);
  }

  /** The passes one after the first of a second, or one after a whole cycle, give an id. */
  lemma EmitsAfterFirst(clock: seq<int>, f: nat, i: nat)
    requires ValidClock(clock) && CounterFits(clock) && f < i < |clock| && First(clock, f) == f && clock[f] == clock[i]
    requires i - f == 1 || i - f == 1 + CYCLE
    ensures EmitsAt(clock, i) && CounterAt(clock, i) == Cycled(CounterAt(clock, f), i - f)
    ensures 1 <= CounterAt(clock, f) <= COUNTER_MAX
  {
    FirstShared(clock, f, i);
    SecondProceeds(clock, i);
    SkippedExactly(clock, i);
  }

  /** With a clock that does not run backwards and a counter that fits its field, the ids of
      a whole run are pairwise distinct if and only if no second sees more than 65535
      passes of the generator. */
  lemma DistinctExactlyWithinBudget(clock: seq<int>, dev: nat)
    requires ValidClock(clock) && CounterFits(clock) && 1 <= dev <= 0x3FFF
    ensures AllDistinct(clock, dev) <==> WithinBudget(clock)
  {
    if WithinBudget(clock) {
      forall i: nat, j: nat | i < j < |clock| && EmitsAt(clock, i) && EmitsAt(clock, j)
        ensures IdAt(clock, dev, i) != IdAt(clock, dev, j)
      {
        PackRoundTrip(clock[i], CounterAt(clock, i), dev);
        PackRoundTrip(clock[j], CounterAt(clock, j), dev);
        if clock[i] == clock[j] {
          SameSecondDistinct(clock, i, j);
        }
      }
    } else {
      var i, j :| 0 <= i <= j < |clock| && clock[i] == clock[j] && j - i >= CYCLE + 1;
      FirstShared(clock, i, j);
      OverBudgetRepeats(clock, dev, j);
    }
  }

  lemma {:induction false} EmittedComesFrom(clock: seq<int>, dev: nat, n: nat, a: nat) returns (i: nat)
    requires ValidClock(clock) && n <= |clock| && a < |Emitted(clock, dev, n)|
    ensures i < n && EmitsAt(clock, i) && IdAt(clock, dev, i) == Emitted(clock, dev, n)[a]
  {
    if a < |Emitted(clock, dev, n - 1)| {
      i := EmittedComesFrom(clock, dev, n - 1, a);
    } else {
      i := n - 1;
    }
  }

  /** So, within the budget, no two callers of NewCUID are handed the same id. */
  lemma {:induction false} CallersGetDistinctIds(clock: seq<int>, dev: nat, n: nat)
    requires ValidClock(clock) && CounterFits(clock) && WithinBudget(clock) && 1 <= dev <= 0x3FFF
    requires n <= |clock|
    ensures Distinct(Emitted(clock, dev, n))
  {
    if n > 0 {
      CallersGetDistinctIds(clock, dev, n - 1);
      DistinctExactlyWithinBudget(clock, dev);
      var before := Emitted(clock, dev, n - 1);
      forall a: nat | a < |before| && EmitsAt(clock, n - 1)
        ensures before[a] != IdAt(clock, dev, n - 1)
      {
        var i := EmittedComesFrom(clock, dev, n - 1, a);
      }
      assert Emitted(clock, dev, n) == before + if EmitsAt(clock, n - 1) then [IdAt(clock, dev, n - 1)] else [];
    }
  }

  /** Every id is a positive int64 that carries its time, counter and device id, and the
      time fields never decrease along a run. */
  lemma IdsAreWellFormed(clock: seq<int>, dev: nat, i: nat, j: nat)
    requires ValidClock(clock) && CounterFits(clock) && 1 <= dev <= 0x3FFF && i <= j < |clock|
    ensures 0 < IdAt(clock, dev, i) < TWO_TO_THE_63
    ensures IdAt(clock, dev, i) / 0x4000_0000 == clock[i]
    ensures IdAt(clock, dev, i) / 0x4000 % 0x1_0000 == CounterAt(clock, i)
    ensures IdAt(clock, dev, i) % 0x4000 == dev
    ensures IdAt(clock, dev, i) / 0x4000_0000 <= IdAt(clock, dev, j) / 0x4000_0000
  {
    PackRoundTrip(clock[i], CounterAt(clock, i), dev);
    PackRoundTrip(clock[j], CounterAt(clock, j), dev);
  }

  /** The counter fits whenever the generator is busy enough to make two passes in every
      second but the last. */
  lemma {:induction false} BusyClockFits(clock: seq<int>, n: nat)
    requires ValidClock(clock) && n < |clock|
    requires forall i | 0 < i < |clock| - 1 && clock[i - 1] != clock[i] :: clock[i] == clock[i + 1]
    requires |clock| > 1 ==> clock[0] == clock[1]
    ensures CounterAt(clock, n) <= COUNTER_MAX
    ensures n > 0 && clock[n - 1] == clock[n] ==> CounterAt(clock, n) < COUNTER_MAX
    ensures StateAt(clock, n + 1).lastTime == clock[n]
  {
    assert StateAt(clock, n + 1) == Advance(StateAt(clock, n), clock[n]);
    if n > 0 {
      BusyClockFits(clock, n - 1);
      assert StateAt(clock, n).lastTime == clock[n - 1];
      if clock[n - 1] != clock[n] && n > 1 {
        assert clock[n - 2] == clock[n - 1];
      }
    }
  }

  // ------------------------------------------------------------------ when the counter does not fit

  /** One pass in each of the seconds 1 .. n. */
  function SlowClock(n: nat): seq<int> {
    seq(n, i => i + 1)
  }

  lemma {:induction false} SlowClockCounts(clock: seq<int>, n: nat)
    requires n <= |clock| && forall i | 0 <= i < n :: clock[i] == i + 1
    ensures StateAt(clock, n) == Gen(n, n, n)
  {
    if n > 0 {
      SlowClockCounts(clock, n - 1);
    }
  }

  const SLOW := 65542

  /** A generator that is asked for one id a second, and then for a few more. */
  const SLOW_RUN := SlowClock(SLOW) + [SLOW, SLOW + 1, SLOW + 1, SLOW + 1, SLOW + 1, SLOW + 1]

  /** The counter never wraps while seconds go by with one pass each. Past 65535 it runs over
      into the time field, and two ids of different seconds come out the same although no
      second sees more than five passes. */
  lemma OverflowingCounterRepeats(dev: nat)
    requires 1 <= dev <= 0x3FFF
    ensures ValidClock(SLOW_RUN) && WithinBudget(SLOW_RUN) && !CounterFits(SLOW_RUN) && !AllDistinct(SLOW_RUN, dev)
  {
    var clock := SLOW_RUN;
    var i, j := SLOW - 1, SLOW + 5;
    SlowClockCounts(clock, SLOW);
    assert CounterAt(clock, i) == SLOW;
    assert StateAt(clock, SLOW + 1) == Gen(SLOW, 1, SLOW);
    assert StateAt(clock, SLOW + 2) == Gen(SLOW + 1, 2, 2);
    assert StateAt(clock, SLOW + 3) == Gen(SLOW + 1, 3, 2);
    assert StateAt(clock, SLOW + 4) == Gen(SLOW + 1, 4, 2);
    assert StateAt(clock, SLOW + 5) == Gen(SLOW + 1, 5, 2);
    assert StateAt(clock, SLOW + 6) == Gen(SLOW + 1, 6, 2);
    assert EmitsAt(clock, j) && EmitsAt(clock, i);
    OverflowedPack(SLOW, 6, dev);
    assert IdAt(clock, dev, i) == IdAt(clock, dev, j);
  }

  lemma SpillsOver(now: nat, field: nat)
    requires now % 2 == 0 && field < 0x4000_0000
    ensures Or(now * 0x4000_0000, 0x4000_0000 + field) == (now + 1) * 0x4000_0000 + field
  {
    OrAbove30(now, 0, 1, field);
    OrEven(now / 2);
    OrZero(field);
  }

  /** In an even second a counter past 65535 reads as one of the next second. */
  lemma OverflowedPack(now: nat, low: nat, dev: nat)
    requires now % 2 == 0 && low < 0x1_0000
    ensures Pack(now, 0x1_0000 + low, dev) == Pack(now + 1, low, dev)
  {
    SpillsOver(now, low * 0x4000);
    BelowTime(now + 1, low * 0x4000);
  }

  lemma OrEven(h: nat)
    ensures Or(2 * h, 1) == 2 * h + 1
  {
    OrZero(h);
    OrStep(h, 0, 0, 1);
  }
}
