/** The exponential backoff of a dialer: SSHDialer.newClient in sshutil/sshmgr.go. The clock
    reading and the outcome of the dial are inputs; int64 wrap-around is written out. */
module Backoff {
  import opened Words

  datatype Outcome = Skipped | Failed | Connected

  datatype Dialer = Dialer(waitSeconds: int, latestConnectTime: int)

  /** One call of newClient: the clock, and whether the dial would succeed. */
  datatype Attempt = Attempt(now: int, succeeds: bool)

  datatype Event = Event(now: int, outcome: Outcome)

  const FRESH := Dialer(0, 0)

  predicate TooEarly(d: Dialer, now: int) {
    d.latestConnectTime != 0 && WrapInt64(now - d.latestConnectTime) < d.waitSeconds
  }

  function OutcomeOf(d: Dialer, a: Attempt): Outcome {
    if TooEarly(d, a.now) then Skipped else if a.succeeds then Connected else Failed
  }

  function After(d: Dialer, a: Attempt): Dialer {
    match OutcomeOf(d, a)
    case Skipped => d
    case Connected => Dialer(0, a.now)
    case Failed => Dialer(if d.waitSeconds <= 0 then 5 else WrapInt64(d.waitSeconds * 2), a.now)
  }

  class SshDialer {
    var waitSeconds: int
    var latestConnectTime: int

    constructor ()
      ensures Value() == FRESH
    {
      waitSeconds, latestConnectTime := 0, 0;
    }

    function Value(): Dialer
      reads this
    {
      Dialer(waitSeconds, latestConnectTime)
    }

    method NewClient(now: int, succeeds: bool) returns (outcome: Outcome)
      modifies this
      ensures outcome == OutcomeOf(old(Value()), Attempt(now, succeeds))
      ensures Value() == After(old(Value()), Attempt(now, succeeds))
    {
      if latestConnectTime != 0 && WrapInt64(now - latestConnectTime) < waitSeconds {
        return Skipped;
      }
      latestConnectTime := now;
      if !succeeds {
        if waitSeconds <= 0 {
          waitSeconds := 5;
        } else {
          waitSeconds := WrapInt64(waitSeconds * 2);
        }
        return Failed;
      }
      waitSeconds := 0;
      return Connected;
    }
  }

  // ------------------------------------------------------------------ whole runs

  /** The dialer after a run of attempts, from a fresh one. */
  function Final(attempts: seq<Attempt>): Dialer {
    if attempts == [] then FRESH
    else After(Final(attempts[..|attempts| - 1]), attempts[|attempts| - 1])
  }

  /** The times of the failed dials since the last success. */
  function Failures(attempts: seq<Attempt>): seq<int> {
    if attempts == [] then []
    else
      var before, last := attempts[..|attempts| - 1], attempts[|attempts| - 1];
      match OutcomeOf(Final(before), last)
      case Skipped => Failures(before)
      case Failed => Failures(before) + [last.now]
      case Connected => []
  }

  /** The times of all dials, failed or not. */
  function Dials(attempts: seq<Attempt>): seq<int> {
    if attempts == [] then []
    else
      var before, last := attempts[..|attempts| - 1], attempts[|attempts| - 1];
      if OutcomeOf(Final(before), last).Skipped? then Dials(before) else Dials(before) + [last.now]
  }

  /** Every clock reading is a positive int64; the clock may run backwards. */
  ghost predicate PositiveClock(attempts: seq<Attempt>) {
    forall a | a in attempts :: 0 < a.now < TWO_TO_THE_63
  }

  /** The i-th and j-th failure of a streak are at least the waits in between apart. */
  predicate Apart(times: seq<int>, i: nat, j: nat)
    requires i <= j < |times|
  {
    times[j] - times[i] >= 5 * (Pow2(j) - Pow2(i))
  }

  ghost predicate Spaced(times: seq<int>) {
    forall i: nat, j: nat | i <= j < |times| :: Apart(times, i, j)
  }

  ghost predicate StreakInv(d: Dialer, times: seq<int>) {
    && Spaced(times)
    && |times| <= 61
    && (forall t | t in times :: 0 < t < TWO_TO_THE_63)
    && (if times == [] then d.waitSeconds == 0
        else d.waitSeconds == 5 * Pow2(|times| - 1) && d.latestConnectTime == times[|times| - 1])
    && 0 <= d.latestConnectTime < TWO_TO_THE_63
  }

  lemma SpacedExtend(times: seq<int>, t: int)
    requires Spaced(times)
    requires times != [] ==> t - times[|times| - 1] >= 5 * Pow2(|times| - 1)
    ensures Spaced(times + [t])
  {
    var k, longer := |times|, times + [t];
    forall i: nat, j: nat | i <= j < |longer|
      ensures Apart(longer, i, j)
    {
      if j < k {
        assert Apart(times, i, j);
      } else if i < k {
        assert Apart(times, i, k - 1);
        assert Pow2(k) == 2 * Pow2(k - 1);
      }
    }
  }

  /** Where 5 * 2^k leaves the range of an int64. */
  lemma WaitFits(k: nat)
    ensures k <= 60 ==> 5 * Pow2(k) < TWO_TO_THE_63
    ensures k > 60 ==> 5 * (Pow2(k) - 1) >= TWO_TO_THE_63
  {
    LargePowers();
    if k <= 60 {
      Pow2Monotone(k, 60);
    } else {
      Pow2Monotone(61, k);
    }
  }

  /** An int64 clock has no room for a longer streak. */
  lemma StreakIsShort(times: seq<int>)
    requires Spaced(times) && forall t | t in times :: 0 < t < TWO_TO_THE_63
    ensures |times| <= 61
  {
    if times != [] {
      var k := |times| - 1;
      assert times[0] in times && times[k] in times;
      assert Apart(times, 0, k);
      WaitFits(k);
    }
  }

  /** A further failure comes one doubled wait later, and the doubling cannot overflow. */
  lemma FailureKeepsStreak(d: Dialer, times: seq<int>, a: Attempt)
    requires StreakInv(d, times) && 0 < a.now < TWO_TO_THE_63 && OutcomeOf(d, a).Failed?
    ensures StreakInv(After(d, a), times + [a.now])
  {
    var k := |times|;
    if k > 0 {
      assert times[k - 1] in times;
    }
    SpacedExtend(times, a.now);
    StreakIsShort(times + [a.now]);
    WaitFits(k);
  }

  lemma {:induction false} StreakHolds(attempts: seq<Attempt>)
    requires PositiveClock(attempts)
    ensures StreakInv(Final(attempts), Failures(attempts))
  {
    if attempts != [] {
      var before, last := attempts[..|attempts| - 1], attempts[|attempts| - 1];
      StreakHolds(before);
      assert last in attempts;
      if OutcomeOf(Final(before), last).Failed? {
        FailureKeepsStreak(Final(before), Failures(before), last);
      }
    }
  }

  lemma FirstApart(times: seq<int>, k: nat)
    requires k < |times| && Spaced(times)
    ensures times[k] - times[0] >= 5 * (Pow2(k) - 1)
  {
    assert Apart(times, 0, k);
  }

  lemma StreakTimes(d: Dialer, times: seq<int>)
    requires StreakInv(d, times)
    ensures forall k: nat | k < |times| :: times[k] - times[0] >= 5 * (Pow2(k) - 1)
  {
    forall k: nat | k < |times|
      ensures times[k] - times[0] >= 5 * (Pow2(k) - 1)
    {
      FirstApart(times, k);
    }
  }

  /** For any positive clock, even one that runs backwards: the k-th failed dial in a row
      comes at least 5 * (2^k - 1) seconds after the first (counting from 0), no streak is
      longer than 61, and the wait is 5 * 2^(failures - 1) seconds without ever wrapping. */
  lemma BackoffDoubles(attempts: seq<Attempt>)
    requires PositiveClock(attempts)
    ensures var times := Failures(attempts);
      && |times| <= 61
      && (forall k: nat | k < |times| :: times[k] - times[0] >= 5 * (Pow2(k) - 1))
      && Final(attempts).waitSeconds == if times == [] then 0 else 5 * Pow2(|times| - 1)
  {
    StreakHolds(attempts);
    StreakTimes(Final(attempts), Failures(attempts));
  }

  /** Dials never go back in time, even if the clock does: an attempt is skipped unless the
      whole wait has passed since the latest dial. */
  lemma {:induction false} DialsNeverDecrease(attempts: seq<Attempt>)
    requires PositiveClock(attempts)
    ensures var dials := Dials(attempts);
      && (forall i, j | 0 <= i <= j < |dials| :: dials[i] <= dials[j])
      && Final(attempts).latestConnectTime == if dials == [] then 0 else dials[|dials| - 1]
  {
    if attempts != [] {
      var before, last := attempts[..|attempts| - 1], attempts[|attempts| - 1];
      DialsNeverDecrease(before);
      StreakHolds(before);
      StreakHolds(attempts);
      assert last in attempts;
    }
  }

  /** An attempt is skipped exactly when a dial was made less than the wait ago: 5 seconds,
      doubled by every failure in a row but the first, and none without failures. */
  lemma SkippedExactly(attempts: seq<Attempt>, next: Attempt)
    requires PositiveClock(attempts + [next])
    ensures var dials, failures := Dials(attempts), |Failures(attempts)|;
      var wait := if failures == 0 then 0 else 5 * Pow2(failures - 1);
      OutcomeOf(Final(attempts), next).Skipped? <==> dials != [] && next.now - dials[|dials| - 1] < wait
    ensures OutcomeOf(Final(attempts), next).Connected? ==> next.succeeds
    ensures OutcomeOf(Final(attempts), next).Failed? ==> !next.succeeds
  {
    assert forall a | a in attempts :: a in attempts + [next];
    assert next in attempts + [next];
    StreakHolds(attempts);
    DialsNeverDecrease(attempts);
    DialsArePositive(attempts);
    EarlyExactly(Final(attempts), next.now);
  }

  lemma EarlyExactly(d: Dialer, now: int)
    requires 0 < now < TWO_TO_THE_63 && 0 <= d.latestConnectTime < TWO_TO_THE_63
    ensures TooEarly(d, now) <==> d.latestConnectTime != 0 && now - d.latestConnectTime < d.waitSeconds
  {
  }

  lemma {:induction false} DialsArePositive(attempts: seq<Attempt>)
    requires PositiveClock(attempts)
    ensures forall t | t in Dials(attempts) :: 0 < t < TWO_TO_THE_63
  {
    if attempts != [] {
      assert attempts[|attempts| - 1] in attempts;
      DialsArePositive(attempts[..|attempts| - 1]);
    }
  }

  /** A success clears the backoff: the next attempt dials unless the clock ran backwards. */
  lemma SuccessResets(attempts: seq<Attempt>, next: Attempt)
    requires PositiveClock(attempts + [next]) && Failures(attempts) == []
    ensures OutcomeOf(Final(attempts), next).Skipped? <==> next.now < Final(attempts).latestConnectTime
  {
  }
}
