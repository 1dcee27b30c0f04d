/** checkSetAck of netserve/context.go under any number of callers: a channel of one slot
    serves as a lock around the comparison, but not around the store that follows it. The
    model is a transition system over every interleaving of the single reads, writes and
    channel operations of any number of calls. */
module AckLock {
  import opened Counting
  import opened Outcomes
  import opened Repeats

  /** Waiting: at the send. Holding and Nonzero: before the first and the second read of the
      stored number, the second of which is made only when the first is not zero.
      Compared: at the receive. Received: at the store. Done: returned. */
  datatype Phase =
    | Waiting
    | Holding
    | Nonzero
    | Compared(ok: bool)
    | Received(ok: bool, got: nat)
    | Done(ok: bool)

  /** A call of checkSetAck(number). */
  datatype Call = Call(number: nat, phase: Phase)

  /** The stored number, the slot of the channel, the calls, and the calls that have sent so
      far in the order of their sends. */
  datatype State = State(ack: nat, slot: Option<nat>, calls: seq<Call>, order: seq<nat>)

  datatype Step =
    | Begin(number: nat)
    | Send(c: nat)
    | ReadFirst(c: nat)
    | ReadSecond(c: nat)
    | Receive(c: nat)
    | Store(c: nat)

  predicate Enabled(s: State, step: Step) {
    step.Begin? ||
    (step.c < |s.calls| &&
     var phase := s.calls[step.c].phase;
     match step
     case Begin(_) => true
     case Send(_) => phase.Waiting? && s.slot.None?
     case ReadFirst(_) => phase.Holding?
     case ReadSecond(_) => phase.Nonzero?
     case Receive(_) => phase.Compared? && s.slot.Some?
     case Store(_) => phase.Received?)
  }

  function Move(s: State, c: nat, phase: Phase): State
    requires c < |s.calls|
  {
    s.(calls := s.calls[c := Call(s.calls[c].number, phase)])
  }

  function Next(s: State, step: Step): State
    requires Enabled(s, step)
  {
    match step
    case Begin(number) => s.(calls := s.calls + [Call(number, Waiting)])
    case Send(c) => Move(s, c, Holding).(slot := Some(s.calls[c].number), order := s.order + [c])
    case ReadFirst(c) => Move(s, c, if s.ack == 0 then Compared(true) else Nonzero)
    case ReadSecond(c) => Move(s, c, Compared(s.ack != s.calls[c].number))
    case Receive(c) => Move(s, c, Received(s.calls[c].phase.ok, s.slot.value)).(slot := None)
    case Store(c) => Move(s, c, Done(s.calls[c].phase.ok)).(ack := s.calls[c].phase.got)
  }

  function Init(ack: nat): State {
    State(ack, None, [], [])
  }

  ghost predicate Run(s: State, steps: seq<Step>, t: State)
    decreases |steps|
  {
    if steps == [] then s == t
    else Enabled(s, steps[0]) && Run(Next(s, steps[0]), steps[1..], t)
  }

  ghost predicate Reachable(ack: nat, s: State) {
    exists steps :: Run(Init(ack), steps, s)
  }

  // ---------------------------------------------------------------- the lock

  /** Between its send and its receive. */
  predicate Inside(s: State, c: nat) {
    c < |s.calls| && (s.calls[c].phase.Holding? || s.calls[c].phase.Nonzero? || s.calls[c].phase.Compared?)
  }

  function Last(s: State): nat
    requires s.order != []
  {
    s.order[|s.order| - 1]
  }

  ghost predicate Inv(s: State) {
    && Distinct(s.order)
    && (forall c: nat :: c in s.order <==> c < |s.calls| && !s.calls[c].phase.Waiting?)
    && (forall c: nat | Inside(s, c) :: s.order != [] && c == Last(s) && s.slot == Some(s.calls[c].number))
    && (s.slot.Some? ==> s.order != [] && Inside(s, Last(s)))
    && (forall c: nat | c < |s.calls| && s.calls[c].phase.Received? :: s.calls[c].phase.got == s.calls[c].number)
  }

  lemma StepInv(s: State, step: Step)
    requires Inv(s) && Enabled(s, step)
    ensures Inv(Next(s, step))
  {
    if step.Send? {
      SendInv(s, step.c);
    } else if step.Begin? {
      BeginInv(s, step.number);
    }
  }

  lemma SendInv(s: State, c: nat)
    requires Inv(s) && Enabled(s, Send(c))
    ensures Inv(Next(s, Send(c)))
  {
  }

  lemma BeginInv(s: State, number: nat)
    requires Inv(s)
    ensures Inv(Next(s, Begin(number)))
  {
  }

  lemma {:induction false} RunInv(s: State, steps: seq<Step>, t: State)
    requires Inv(s) && Run(s, steps, t)
    ensures Inv(t)
    decreases |steps|
  {
    if steps != [] {
      StepInv(s, steps[0]);
      RunInv(Next(s, steps[0]), steps[1..], t);
    }
  }

  lemma ReachableInv(ack: nat, s: State)
    requires Reachable(ack, s)
    ensures Inv(s)
  {
    var steps :| Run(Init(ack), steps, s);
    RunInv(Init(ack), steps, s);
  }

  /** At most one call at a time is between its send and its receive, the channel is full
      exactly while there is one, and a call receives the number that it sent. */
  lemma MutualExclusion(ack: nat, s: State)
    requires Reachable(ack, s)
    ensures forall c: nat, d: nat | Inside(s, c) && Inside(s, d) :: c == d
    ensures s.slot.Some? <==> exists c: nat :: Inside(s, c)
    ensures forall c: nat | c < |s.calls| && s.calls[c].phase.Compared? :: Enabled(s, Receive(c))
    ensures forall c: nat | c < |s.calls| && s.calls[c].phase.Received? :: s.calls[c].phase.got == s.calls[c].number
  {
    ReachableInv(ack, s);
  }

  /** Some call can always go on until all of them have returned. */
  lemma NeverStuck(ack: nat, s: State)
    requires Reachable(ack, s)
    ensures (forall c: nat | c < |s.calls| :: s.calls[c].phase.Done?)
      || exists step: Step :: !step.Begin? && Enabled(s, step)
  {
    ReachableInv(ack, s);
    if c: nat :| c < |s.calls| && !s.calls[c].phase.Done? {
      var d := if s.slot.Some? then Last(s) else c;
      var step := match s.calls[d].phase
        case Waiting => Send(d)
        case Holding => ReadFirst(d)
        case Nonzero => ReadSecond(d)
        case Compared(_) => Receive(d)
        case _ => Store(d);
      assert Enabled(s, step);
    }
  }

  // ------------------------------------------------------- when the store is not waited for

  predicate Pending(s: State, c: nat) {
    c < |s.calls| && s.calls[c].phase.Received?
  }

  /** The step does not read the stored number while a store is still to come. */
  ghost predicate Quiet(s: State, step: Step) {
    step.ReadFirst? || step.ReadSecond? ==> forall c: nat :: !Pending(s, c)
  }

  ghost predicate QuietRun(s: State, steps: seq<Step>, t: State)
    decreases |steps|
  {
    if steps == [] then s == t
    else Enabled(s, steps[0]) && Quiet(s, steps[0]) && QuietRun(Next(s, steps[0]), steps[1..], t)
  }

  function PhaseAt(s: State, k: nat): Phase
    requires Inv(s) && k < |s.order|
  {
    assert s.order[k] in s.order;
    s.calls[s.order[k]].phase
  }

  function NumberAt(s: State, k: nat): nat
    requires Inv(s) && k < |s.order|
  {
    assert s.order[k] in s.order;
    s.calls[s.order[k]].number
  }

  /** The number of the call that sent before the k-th sender, or the one stored at the start. */
  function Previous(ack: nat, s: State, k: nat): nat
    requires Inv(s) && k <= |s.order|
  {
    if k == 0 then ack else NumberAt(s, k - 1)
  }

  predicate Decided(phase: Phase) {
    phase.Compared? || phase.Received? || phase.Done?
  }

  ghost predicate DecidedAsSerial(ack: nat, s: State, k: nat)
    requires Inv(s) && k < |s.order|
  {
    var phase := PhaseAt(s, k);
    && (Decided(phase) ==> phase.ok == Accepts(Previous(ack, s, k), NumberAt(s, k)))
    && (phase.Nonzero? ==> Previous(ack, s, k) != 0)
  }

  /** How many of the calls that have sent have also stored: they are the first ones. */
  ghost predicate StoredUpTo(ack: nat, s: State, n: nat)
    requires Inv(s)
  {
    n <= |s.order| <= n + 2 && s.ack == Previous(ack, s, n)
    && (forall k: nat | k < n :: PhaseAt(s, k).Done?)
    && (forall k: nat | n <= k < |s.order| :: !PhaseAt(s, k).Done?)
    && (n + 2 == |s.order| ==> PhaseAt(s, n).Received? && PhaseAt(s, n + 1).Holding?)
  }

  ghost predicate SerialUpTo(ack: nat, s: State, n: nat) {
    && Inv(s)
    && StoredUpTo(ack, s, n)
    && forall k: nat | k < |s.order| :: DecidedAsSerial(ack, s, k)
  }

  /** A step changes the phase of the call that takes it, and leaves the numbers. */
  lemma StepFrame(ack: nat, s: State, step: Step)
    requires Inv(s) && Enabled(s, step)
    ensures var t := Next(s, step);
      && Inv(t)
      && t.order == s.order + (if step.Send? then [step.c] else [])
      && (forall k: nat | k < |s.order| :: NumberAt(t, k) == NumberAt(s, k))
      && (forall k: nat | k <= |s.order| :: Previous(ack, t, k) == Previous(ack, s, k))
      && (forall k: nat | k < |s.order| && (step.Begin? || s.order[k] != step.c) :: PhaseAt(t, k) == PhaseAt(s, k))
  {
    StepInv(s, step);
    assert forall k: nat | k < |s.order| :: s.order[k] in s.order;
  }

  /** Before a quiet read, all senders but the reader have stored. */
  lemma ReadInTurn(ack: nat, s: State, step: Step, n: nat)
    requires SerialUpTo(ack, s, n) && Enabled(s, step) && Quiet(s, step) && (step.ReadFirst? || step.ReadSecond?)
    ensures |s.order| == n + 1 && s.order[n] == step.c
  {
    assert Inside(s, step.c) && step.c == Last(s);
    if n < |s.order| - 1 {
      assert PhaseAt(s, n).Received? && Pending(s, s.order[n]);
    }
    assert !PhaseAt(s, |s.order| - 1).Done?;
  }

  /** Before a send, at most one sender is still to store. */
  lemma SendInTurn(ack: nat, s: State, c: nat, n: nat)
    requires SerialUpTo(ack, s, n) && Enabled(s, Send(c))
    ensures |s.order| <= n + 1
    ensures |s.order| == n + 1 ==> PhaseAt(s, n).Received?
    ensures c !in s.order
  {
  }

  /** A call stores in its turn. */
  lemma StoreInTurn(ack: nat, s: State, c: nat, n: nat)
    requires SerialUpTo(ack, s, n) && Enabled(s, Store(c))
    ensures n < |s.order| && s.order[n] == c
  {
    assert c in s.order;
    var k: nat :| k < |s.order| && s.order[k] == c;
    assert PhaseAt(s, k).Received?;
  }

  /** The senders other than the one at place j are as they were. */
  lemma OthersKept(ack: nat, s: State, step: Step, j: nat)
    requires Inv(s) && Enabled(s, step)
    requires if step.Begin? || step.Send? then j == |s.order| else j < |s.order| && s.order[j] == step.c
    ensures var t := Next(s, step);
      Inv(t) && |t.order| >= |s.order| &&
      forall k: nat | k < |s.order| && k != j ::
        PhaseAt(t, k) == PhaseAt(s, k) && (DecidedAsSerial(ack, s, k) ==> DecidedAsSerial(ack, t, k))
  {
    StepFrame(ack, s, step);
    var t := Next(s, step);
    forall k: nat | k < |s.order| && k != j
      ensures PhaseAt(t, k) == PhaseAt(s, k) && (DecidedAsSerial(ack, s, k) ==> DecidedAsSerial(ack, t, k))
    {
      assert s.order[k] in s.order;
      assert step.Begin? || s.order[k] != step.c;
    }
  }

  lemma BeginStep(ack: nat, s: State, number: nat, n: nat)
    requires SerialUpTo(ack, s, n)
    ensures SerialUpTo(ack, Next(s, Begin(number)), n)
  {
    OthersKept(ack, s, Begin(number), |s.order|);
    StepFrame(ack, s, Begin(number));
  }

  lemma SendStep(ack: nat, s: State, c: nat, n: nat)
    requires SerialUpTo(ack, s, n) && Enabled(s, Send(c))
    ensures SerialUpTo(ack, Next(s, Send(c)), n)
  {
    SendInTurn(ack, s, c, n);
    OthersKept(ack, s, Send(c), |s.order|);
    StepFrame(ack, s, Send(c));
    assert PhaseAt(Next(s, Send(c)), |s.order|) == Holding;
  }

  lemma ReadStep(ack: nat, s: State, step: Step, n: nat)
    requires SerialUpTo(ack, s, n) && Enabled(s, step) && Quiet(s, step) && (step.ReadFirst? || step.ReadSecond?)
    ensures SerialUpTo(ack, Next(s, step), n)
  {
    ReadInTurn(ack, s, step, n);
    OthersKept(ack, s, step, n);
    StepFrame(ack, s, step);
    assert DecidedAsSerial(ack, s, n);
  }

  lemma ReceiveStep(ack: nat, s: State, c: nat, n: nat)
    requires SerialUpTo(ack, s, n) && Enabled(s, Receive(c))
    ensures SerialUpTo(ack, Next(s, Receive(c)), n)
  {
    assert Inside(s, c);
    assert PhaseAt(s, |s.order| - 1).Compared?;
    assert |s.order| == n + 1;
    OthersKept(ack, s, Receive(c), n);
    StepFrame(ack, s, Receive(c));
    assert DecidedAsSerial(ack, s, n);
  }

  lemma StoreStep(ack: nat, s: State, c: nat, n: nat)
    requires SerialUpTo(ack, s, n) && Enabled(s, Store(c))
    ensures SerialUpTo(ack, Next(s, Store(c)), n + 1)
  {
    StoreInTurn(ack, s, c, n);
    OthersKept(ack, s, Store(c), n);
    StepFrame(ack, s, Store(c));
    var t := Next(s, Store(c));
    assert DecidedAsSerial(ack, s, n) && PhaseAt(t, n) == Done(PhaseAt(s, n).ok);
    assert t.ack == NumberAt(s, n) == Previous(ack, t, n + 1);
  }

  lemma {:induction false} QuietRunIsSerial(ack: nat, s: State, n: nat, steps: seq<Step>, t: State) returns (m: nat)
    requires SerialUpTo(ack, s, n) && QuietRun(s, steps, t)
    ensures SerialUpTo(ack, t, m)
    decreases |steps|
  {
    m := n;
    if steps != [] {
      match steps[0] {
        case Begin(number) => BeginStep(ack, s, number, n);
        case Send(c) => SendStep(ack, s, c, n);
        case Receive(c) => ReceiveStep(ack, s, c, n);
        case Store(c) => StoreStep(ack, s, c, n); m := n + 1;
        case _ => ReadStep(ack, s, steps[0], n);
      }
      m := QuietRunIsSerial(ack, Next(s, steps[0]), m, steps[1..], t);
    }
  }

  /** All the numbers sent, in the order of the sends, or only the accepted ones, from the
      first n senders. */
  function Numbers(s: State, n: nat, acceptedOnly: bool): seq<nat>
    requires Inv(s) && n <= |s.order|
  {
    if n == 0 then []
    else
      var before, phase := Numbers(s, n - 1, acceptedOnly), PhaseAt(s, n - 1);
      if !acceptedOnly || (Decided(phase) && phase.ok) then before + [NumberAt(s, n - 1)] else before
  }

  lemma {:induction false} NumbersSqueezed(ack: nat, s: State, n: nat)
    requires Inv(s) && n <= |s.order|
    requires forall k: nat | k < n :: Decided(PhaseAt(s, k)) && DecidedAsSerial(ack, s, k)
    ensures |Numbers(s, n, false)| == n && (n > 0 ==> Numbers(s, n, false)[n - 1] == NumberAt(s, n - 1))
    ensures [ack] + Numbers(s, n, true) == Squeeze([ack] + Numbers(s, n, false))
  {
    if n == 0 {
      SqueezeSnoc([ack], ack);
    } else {
      NumbersSqueezed(ack, s, n - 1);
      var all, kept, number := Numbers(s, n - 1, false), Numbers(s, n - 1, true), NumberAt(s, n - 1);
      assert ([ack] + all)[n - 1] == Previous(ack, s, n - 1);
      assert DecidedAsSerial(ack, s, n - 1);
      SqueezeStep(ack, all, kept, number, PhaseAt(s, n - 1).ok);
    }
  }

  /** When no call reads while a store is to come, calls decide as if they had been made one
      after the other in the order of their sends: what they accept is what was sent with
      adjacent nonzero repeats removed, counting the number stored before. */
  lemma QuietRunsSqueeze(ack: nat, steps: seq<Step>, s: State)
    requires QuietRun(Init(ack), steps, s) && forall c: nat | c < |s.calls| :: s.calls[c].phase.Done?
    ensures Inv(s) && |s.order| == |s.calls|
    ensures [ack] + Numbers(s, |s.order|, true) == Squeeze([ack] + Numbers(s, |s.order|, false))
  {
    var n := QuietRunIsSerial(ack, Init(ack), 0, steps, s);
    forall k: nat | k < |s.order|
      ensures Decided(PhaseAt(s, k))
    {
      assert s.order[k] in s.order;
    }
    NumbersSqueezed(ack, s, |s.order|);
    Pigeonhole(s.order, |s.calls|);
    forall c: nat | c < |s.calls|
      ensures c in Elements(s.order)
    {
      assert s.calls[c].phase.Done?;
    }
    DistinctSize(s.order);
    SubsetSize(Below(|s.calls|), Elements(s.order));
  }

  // ------------------------------------------------------- when a read comes before a store

  /** The two calls c and d can take the state s to t, with no other call moving. */
  ghost predicate Leads(s: State, t: State, c: nat, d: nat) {
    exists steps: seq<Step> :: Run(s, steps, t) && OnlyBy(steps, c, d)
  }

  ghost predicate OnlyBy(steps: seq<Step>, c: nat, d: nat) {
    forall step | step in steps :: !step.Begin? && (step.c == c || step.c == d)
  }

  lemma {:induction false} RunConcat(s: State, steps: seq<Step>, t: State, more: seq<Step>, u: State)
    requires Run(s, steps, t) && Run(t, more, u)
    ensures Run(s, steps + more, u)
    decreases |steps|
  {
    if steps == [] {
      assert steps + more == more;
    } else {
      assert (steps + more)[1..] == steps[1..] + more;
      RunConcat(Next(s, steps[0]), steps[1..], t, more, u);
    }
  }

  lemma RunStep(s: State, step: Step)
    requires Enabled(s, step)
    ensures Run(s, [step], Next(s, step))
  {
    assert [step][1..] == [];
    assert Run(Next(s, step), [], Next(s, step));
  }

  lemma Extend(ack: nat, s: State, step: Step)
    requires Reachable(ack, s) && Enabled(s, step)
    ensures Reachable(ack, Next(s, step))
  {
    var steps :| Run(Init(ack), steps, s);
    RunStep(s, step);
    RunConcat(Init(ack), steps, s, [step], Next(s, step));
  }

  lemma LeadsOn(s: State, t: State, step: Step, c: nat, d: nat)
    requires Leads(s, t, c, d) && Enabled(t, step) && !step.Begin? && (step.c == c || step.c == d)
    ensures Leads(s, Next(t, step), c, d)
  {
    var steps: seq<Step> :| Run(s, steps, t) && OnlyBy(steps, c, d);
    RunStep(t, step);
    RunConcat(s, steps, t, [step], Next(t, step));
    assert OnlyBy(steps + [step], c, d);
  }

  lemma LeadsReachable(ack: nat, s: State, t: State, c: nat, d: nat)
    requires Reachable(ack, s) && Leads(s, t, c, d)
    ensures Reachable(ack, t)
  {
    var before :| Run(Init(ack), before, s);
    var steps: seq<Step> :| Run(s, steps, t) && OnlyBy(steps, c, d);
    RunConcat(Init(ack), before, s, steps, t);
  }

  /** The state after call c has come as far as its store, with no other call moving. */
  function AtStore(s: State, c: nat): State
    requires c < |s.calls|
  {
    Move(s, c, Received(Accepts(s.ack, s.calls[c].number), s.calls[c].number)).(order := s.order + [c])
  }

  lemma ComesToStore(s: State, t: State, e: nat, c: nat, d: nat)
    requires Leads(s, t, c, d) && (e == c || e == d)
    requires e < |t.calls| && t.calls[e].phase.Waiting? && t.slot.None?
    ensures Leads(s, AtStore(t, e), c, d)
  {
    LeadsOn(s, t, Send(e), c, d);
    var t1 := Next(t, Send(e));
    LeadsOn(s, t1, ReadFirst(e), c, d);
    var t2 := Next(t1, ReadFirst(e));
    if t.ack != 0 {
      LeadsOn(s, t2, ReadSecond(e), c, d);
      t2 := Next(t2, ReadSecond(e));
    }
    LeadsOn(s, t2, Receive(e), c, d);
    assert Next(t2, Receive(e)) == AtStore(t, e);
  }

  /** Two waiting calls, and nobody between a send and a store. */
  ghost predicate BothWait(s: State, c: nat, d: nat) {
    && c < |s.calls| && d < |s.calls| && c != d
    && s.calls[c].phase.Waiting? && s.calls[d].phase.Waiting? && s.slot.None?
    && forall e: nat :: !Pending(s, e)
  }

  /** The calls c and d can move, c sending first, so that d decides `ok`. */
  ghost predicate CanDecide(s: State, c: nat, d: nat, ok: bool) {
    exists t: State :: Leads(s, t, c, d) && SecondDecides(s, t, c, d, ok)
  }

  ghost predicate SecondDecides(s: State, t: State, c: nat, d: nat, ok: bool) {
    t.order == s.order + [c, d] && d < |t.calls| && Decided(t.calls[d].phase) && t.calls[d].phase.ok == ok
  }

  /** d reads before c stores: it decides by the number that was stored before. */
  lemma StaleRead(s: State, c: nat, d: nat)
    requires BothWait(s, c, d)
    ensures CanDecide(s, c, d, Accepts(s.ack, s.calls[d].number))
  {
    assert Run(s, [], s) && OnlyBy([], c, d);
    ComesToStore(s, s, c, c, d);
    var s1 := AtStore(s, c);
    ComesToStore(s, s1, d, c, d);
    assert SecondDecides(s, AtStore(s1, d), c, d, Accepts(s.ack, s.calls[d].number));
  }

  /** c stores in time: d decides as in a serial run. */
  lemma FreshRead(s: State, c: nat, d: nat)
    requires BothWait(s, c, d)
    ensures CanDecide(s, c, d, Accepts(s.calls[c].number, s.calls[d].number))
  {
    assert Run(s, [], s) && OnlyBy([], c, d);
    ComesToStore(s, s, c, c, d);
    LeadsOn(s, AtStore(s, c), Store(c), c, d);
    var s1 := Next(AtStore(s, c), Store(c));
    ComesToStore(s, s1, d, c, d);
    assert SecondDecides(s, AtStore(s1, d), c, d, Accepts(s.calls[c].number, s.calls[d].number));
  }

  /** c stores between the two reads of d. */
  lemma TornRead(s: State, c: nat, d: nat)
    requires BothWait(s, c, d) && s.ack != 0
    ensures CanDecide(s, c, d, s.calls[c].number != s.calls[d].number)
  {
    assert Run(s, [], s) && OnlyBy([], c, d);
    ComesToStore(s, s, c, c, d);
    var s1 := AtStore(s, c);
    LeadsOn(s, s1, Send(d), c, d);
    var s2 := Next(s1, Send(d));
    LeadsOn(s, s2, ReadFirst(d), c, d);
    var s3 := Next(s2, ReadFirst(d));
    LeadsOn(s, s3, Store(c), c, d);
    var s4 := Next(s3, Store(c));
    LeadsOn(s, s4, ReadSecond(d), c, d);
    assert SecondDecides(s, Next(s4, ReadSecond(d)), c, d, s.calls[c].number != s.calls[d].number);
  }

  predicate MayDecide(ack: nat, m: nat, n: nat, ok: bool) {
    ok == Accepts(m, n) || ok == Accepts(ack, n) || (ack != 0 && m == 0 && n == 0)
  }

  /** Before c sends. */
  ghost predicate Stage0(s: State, t: State, c: nat, d: nat)
    requires c < |t.calls| && d < |t.calls|
  {
    t.order == s.order && t.calls[c].phase.Waiting? && t.calls[d].phase.Waiting? && t.ack == s.ack
  }

  /** After c has sent, and before d does. */
  ghost predicate Stage1(s: State, t: State, c: nat, d: nat)
    requires c < |t.calls| && d < |t.calls|
  {
    && t.order == s.order + [c] && !t.calls[c].phase.Waiting? && t.calls[d].phase.Waiting?
    && t.ack == if t.calls[c].phase.Done? then t.calls[c].number else s.ack
  }

  /** After both have sent: what d has read and may read. */
  ghost predicate Stage2(s: State, t: State, c: nat, d: nat)
    requires c < |t.calls| && d < |t.calls|
  {
    var m, n, first, second := t.calls[c].number, t.calls[d].number, t.calls[c].phase, t.calls[d].phase;
    && t.order == s.order + [c, d] && (first.Received? || first.Done?) && !second.Waiting?
    && (!second.Done? ==> t.ack == if first.Done? then m else s.ack)
    && (second.Nonzero? ==> s.ack != 0 || (first.Done? && m != 0))
    && (Decided(second) ==> MayDecide(s.ack, m, n, second.ok))
  }

  /** Otherwise d has sent first. */
  ghost predicate Otherwise(s: State, t: State, d: nat) {
    |t.order| > |s.order| && t.order[|s.order|] == d
  }

  ghost predicate TwoInv(s: State, t: State, c: nat, d: nat) {
    && Inv(t) && |t.calls| == |s.calls| && c < |s.calls| && d < |s.calls| && c != d
    && t.calls[c].number == s.calls[c].number && t.calls[d].number == s.calls[d].number
    && (Stage0(s, t, c, d) || Stage1(s, t, c, d) || Stage2(s, t, c, d) || Otherwise(s, t, d))
  }

  lemma TwoStep(s: State, t: State, step: Step, c: nat, d: nat)
    requires TwoInv(s, t, c, d) && Enabled(t, step) && !step.Begin? && (step.c == c || step.c == d)
    ensures TwoInv(s, Next(t, step), c, d)
  {
    StepInv(t, step);
    var u := Next(t, step);
    if Otherwise(s, t, d) {
      assert Otherwise(s, u, d);
    } else if Stage0(s, t, c, d) {
      assert if step.c == c then Stage1(s, u, c, d) else Otherwise(s, u, d);
    } else if Stage1(s, t, c, d) {
      if step.c == d {
        assert u.order == s.order + [c, d];
        assert Last(t) == c && !Inside(t, c);
        assert Stage2(s, u, c, d);
      } else {
        assert Stage1(s, u, c, d);
      }
    } else {
      assert Last(t) == d;
      assert Stage2(s, u, c, d);
    }
  }

  lemma {:induction false} TwoRun(s: State, t: State, steps: seq<Step>, u: State, c: nat, d: nat)
    requires TwoInv(s, t, c, d) && Run(t, steps, u) && OnlyBy(steps, c, d)
    ensures TwoInv(s, u, c, d)
    decreases |steps|
  {
    if steps != [] {
      assert steps[0] in steps;
      TwoStep(s, t, steps[0], c, d);
      assert OnlyBy(steps[1..], c, d);
      TwoRun(s, Next(t, steps[0]), steps[1..], u, c, d);
    }
  }

  /** Which verdicts the second of two concurrent calls may reach: that of a serial run, that
      of a run in which the first had not been made, and a refusal of zero after zero when
      another number was stored. */
  lemma SecondVerdicts(s: State, c: nat, d: nat, ok: bool)
    requires Inv(s) && BothWait(s, c, d)
    ensures CanDecide(s, c, d, ok) <==> MayDecide(s.ack, s.calls[c].number, s.calls[d].number, ok)
  {
    StaleRead(s, c, d);
    FreshRead(s, c, d);
    if s.ack != 0 {
      TornRead(s, c, d);
    }
    if CanDecide(s, c, d, ok) {
      var t: State :| Leads(s, t, c, d) && SecondDecides(s, t, c, d, ok);
      var steps: seq<Step> :| Run(s, steps, t) && OnlyBy(steps, c, d);
      TwoRun(s, s, steps, t, c, d);
      assert t.order[|s.order|] == c;
    }
  }

  /** From a state where no store is pending, two concurrent calls with numbers m and n, that
      with m sending first, can come to another verdict on n than in a serial run if and only
      if the number stored before would decide otherwise than m does, or both are zero and
      that number is not. */
  lemma SecondCanBeMisjudged(ack: nat, s: State, c: nat, d: nat)
    requires Reachable(ack, s) && BothWait(s, c, d)
    ensures var m, n := s.calls[c].number, s.calls[d].number;
      CanDecide(s, c, d, !Accepts(m, n)) <==> Accepts(s.ack, n) != Accepts(m, n) || (s.ack != 0 && m == 0 && n == 0)
  {
    ReachableInv(ack, s);
    SecondVerdicts(s, c, d, !Accepts(s.calls[c].number, s.calls[d].number));
  }

  /** Three ways to fail: a repeat is accepted; a number that was stored before the other is
      refused although it repeats nothing; a zero, which serial runs always accept, is refused. */
  lemma MisjudgedNumbers(ack: nat, s: State, c: nat, d: nat)
    requires Reachable(ack, s) && BothWait(s, c, d)
    ensures var m, n := s.calls[c].number, s.calls[d].number;
      && (n != 0 && m == n && s.ack != n ==> !Accepts(m, n) && CanDecide(s, c, d, true))
      && (n != 0 && m != n && s.ack == n ==> Accepts(m, n) && CanDecide(s, c, d, false))
      && (n == 0 && m == 0 && s.ack != 0 ==> Accepts(m, n) && CanDecide(s, c, d, false))
  {
    SecondCanBeMisjudged(ack, s, c, d);
  }

  ghost predicate BothAccepted(s: State, c: nat, d: nat) {
    c < |s.calls| && d < |s.calls| && c != d && s.calls[c].phase == s.calls[d].phase == Done(true)
  }

  /** From any reachable state where two waiting calls carry the same acceptable number, both
      may accept it. */
  lemma RaceAcceptsTwice(ack: nat, s: State, c: nat, d: nat) returns (t: State)
    requires Reachable(ack, s) && s.slot.None?
    requires c < |s.calls| && d < |s.calls| && c != d && s.calls[c] == s.calls[d]
    requires s.calls[c].phase.Waiting? && Accepts(s.ack, s.calls[c].number)
    ensures Reachable(ack, t) && BothAccepted(t, c, d)
    ensures |t.calls| == |s.calls| && forall e: nat | e < |s.calls| :: t.calls[e].number == s.calls[e].number
  {
    assert Run(s, [], s) && OnlyBy([], c, d);
    ComesToStore(s, s, c, c, d);
    var s1 := AtStore(s, c);
    ComesToStore(s, s1, d, c, d);
    var s2 := AtStore(s1, d);
    LeadsOn(s, s2, Store(c), c, d);
    var s3 := Next(s2, Store(c));
    LeadsOn(s, s3, Store(d), c, d);
    t := Next(s3, Store(d));
    LeadsReachable(ack, s, t, c, d);
  }

  ghost predicate OnlyNumber(s: State, n: nat) {
    forall c: nat | c < |s.calls| :: s.calls[c].number == n
  }

  /** With the number stored at the start, no call of a run that sends nothing else accepts. */
  ghost predicate AllRefused(s: State, n: nat) {
    s.ack == n && OnlyNumber(s, n) && forall c: nat | c < |s.calls| && Decided(s.calls[c].phase) :: !s.calls[c].phase.ok
  }

  lemma {:induction false} StoredIsRefused(n: nat, s: State, steps: seq<Step>, t: State)
    requires n != 0 && Inv(s) && AllRefused(s, n) && Run(s, steps, t) && OnlyNumber(t, n)
    ensures AllRefused(t, n)
    decreases |steps|
  {
    if steps != [] {
      var u := Next(s, steps[0]);
      StepInv(s, steps[0]);
      NumbersStay(u, steps[1..], t);
      assert AllRefused(u, n);
      StoredIsRefused(n, u, steps[1..], t);
    }
  }

  lemma {:induction false} NumbersStay(s: State, steps: seq<Step>, t: State)
    requires Run(s, steps, t)
    ensures |s.calls| <= |t.calls| && forall c: nat | c < |s.calls| :: t.calls[c].number == s.calls[c].number
    decreases |steps|
  {
    if steps != [] {
      NumbersStay(Next(s, steps[0]), steps[1..], t);
    }
  }

  ghost predicate CanAcceptTwice(ack: nat, n: nat) {
    exists s: State, c: nat, d: nat :: Reachable(ack, s) && OnlyNumber(s, n) && BothAccepted(s, c, d)
  }

  /** Repeats of one nonzero number alone can be accepted twice exactly when it is not the
      stored one, so that the first of them has to be accepted. */
  lemma RepeatCanBeAccepted(ack: nat, n: nat)
    requires n != 0
    ensures CanAcceptTwice(ack, n) <==> n != ack
  {
    if n != ack {
      assert Run(Init(ack), [], Init(ack));
      Extend(ack, Init(ack), Begin(n));
      var s := Next(Init(ack), Begin(n));
      Extend(ack, s, Begin(n));
      var t := RaceAcceptsTwice(ack, Next(s, Begin(n)), 0, 1);
      assert OnlyNumber(t, n);
    } else if CanAcceptTwice(ack, n) {
      var s: State, c: nat, d: nat :| Reachable(ack, s) && OnlyNumber(s, n) && BothAccepted(s, c, d);
      var steps :| Run(Init(ack), steps, s);
      StoredIsRefused(n, Init(ack), steps, s);
      assert false;
    }
  }
}
