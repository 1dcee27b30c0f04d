/** The connect race of the SSH dialer manager (sshutil/sshmgr.go).

    Every call of connetToSSH pops dialers off a shared channel, starts one goroutine per
    popped dialer, lets a collector goroutine read one result per goroutine and deliver
    exactly one message, and waits for that message, a timeout or cancellation. The model is
    a transition system over any number of dialers and of calls: a state holds the program
    counter of every goroutine, and a run is any interleaving of their steps. Calls may
    overlap freely, which covers goroutines left behind by a call that timed out. */
module SshPool {
  import opened Counting
  import opened Outcomes

  /** `dialers` were built by Init; the dialer channel, and the result channel of every
      call, have `capacity` slots. */
  datatype Pool = Pool(dialers: nat, capacity: nat)

  /** Dialing: inside newClient. Ready: about to send on sshClients. Sent: about to push the
      dialer back. Ended: the dialer is back in the pool. */
  datatype Phase = Dialing | Ready | Sent | Ended

  /** A dial goroutine; `made` says that newClient gave it a client. Its client is named by
      the index of the goroutine within its call. */
  datatype Worker = Worker(dialer: nat, phase: Phase, made: bool)

  datatype Collector = NotStarted | Waiting | Handling(worker: nat) | Finished

  datatype Caller = Popping | Selecting | Got(message: Option<nat>) | TimedOut | Cancelled

  /** One call. `sends` lists its goroutines in the order of their sends on sshClients, of
      which the collector has received the first `taken`, so the channel holds
      sends[taken..]. `outbox` lists every message put on sshClient, a channel of one slot. */
  datatype Call = Call(workers: seq<Worker>, sends: seq<nat>, taken: nat, collector: Collector,
                       outbox: seq<Option<nat>>, closed: set<nat>, caller: Caller)

  datatype State = State(pool: seq<nat>, calls: seq<Call>)

  datatype Step =
    | StartCall
    | Pop(c: nat)
    | LeaveLoop(c: nat)
    | Dial(c: nat, w: nat, ok: bool)
    | Send(c: nat, w: nat)
    | PushBack(c: nat, w: nat)
    | Receive(c: nat)
    | Handle(c: nat)
    | Finish(c: nat)
    | TakeMessage(c: nat)
    | Timeout(c: nat)
    | Cancel(c: nat)

  const NEW_CALL := Call([], [], 0, NotStarted, [], {}, Popping)

  ghost predicate ValidPool(p: Pool) {
    p.dialers <= p.capacity
  }

  function Init(p: Pool): State {
    State(seq(p.dialers, i => i), [])
  }

  /** Whether the process that takes the step has reached it, blocking aside. */
  predicate Reached(s: State, step: Step) {
    step.StartCall? ||
    (step.c < |s.calls| &&
     var call := s.calls[step.c];
     match step
     case StartCall => true
     case Pop(_) => call.caller.Popping? && s.pool != []
     case LeaveLoop(_) => call.caller.Popping? && s.pool == []
     case Dial(_, w, _) => w < |call.workers| && call.workers[w].phase.Dialing?
     case Send(_, w) => w < |call.workers| && call.workers[w].phase.Ready?
     case PushBack(_, w) => w < |call.workers| && call.workers[w].phase.Sent?
     case Receive(_) => call.collector.Waiting? && call.taken < |call.workers|
     case Handle(_) => call.collector.Handling? && call.collector.worker < |call.workers|
     case Finish(_) => call.collector.Waiting? && call.taken >= |call.workers|
     case TakeMessage(_) => call.caller.Selecting?
     case Timeout(_) => call.caller.Selecting?
     case Cancel(_) => call.caller.Selecting?)
  }

  /** Messages waiting in the one-slot channel the caller selects on. */
  function InOutbox(call: Call): int {
    |call.outbox| - if call.caller.Got? then 1 else 0
  }

  /** Whether the channel operation of a reached step can go through at once. */
  predicate Unblocked(p: Pool, s: State, step: Step)
    requires Reached(s, step)
  {
    match step
    case Send(c, _) => |s.calls[c].sends| - s.calls[c].taken < p.capacity
    case PushBack(_, _) => |s.pool| < p.capacity
    case Receive(c) => s.calls[c].taken < |s.calls[c].sends|
    case Handle(c) => Sends(s.calls[c]) ==> InOutbox(s.calls[c]) < 1
    case Finish(c) => s.calls[c].outbox == [] ==> InOutbox(s.calls[c]) < 1
    case TakeMessage(c) => 0 < InOutbox(s.calls[c])
    case _ => true
  }

  /** Whether handling the received result puts a message on sshClient. */
  predicate Sends(call: Call)
    requires call.collector.Handling? && call.collector.worker < |call.workers|
  {
    call.workers[call.collector.worker].made && call.outbox == []
  }

  predicate Enabled(p: Pool, s: State, step: Step) {
    Reached(s, step) && Unblocked(p, s, step)
  }

  function SetPhase(call: Call, w: nat, phase: Phase, made: bool): Call
    requires w < |call.workers|
  {
    call.(workers := call.workers[w := Worker(call.workers[w].dialer, phase, made)])
  }

  /** What the step does to the call that takes it. */
  function NextCall(s: State, step: Step): Call
    requires !step.StartCall? && Reached(s, step)
    requires step.Receive? ==> s.calls[step.c].taken < |s.calls[step.c].sends|
    requires step.TakeMessage? ==> s.calls[step.c].outbox != []
  {
    var call := s.calls[step.c];
    match step
    case Pop(_) => call.(workers := call.workers + [Worker(s.pool[0], Dialing, false)])
    case LeaveLoop(_) => call.(caller := Selecting, collector := Waiting)
    case Dial(_, w, ok) => SetPhase(call, w, Ready, ok)
    case Send(_, w) => SetPhase(call, w, Sent, call.workers[w].made).(sends := call.sends + [w])
    case PushBack(_, w) => SetPhase(call, w, Ended, call.workers[w].made)
    case Receive(_) => call.(collector := Handling(call.sends[call.taken]), taken := call.taken + 1)
    case Handle(_) =>
      var w := call.collector.worker;
      if !call.workers[w].made then call.(collector := Waiting)
      else if call.outbox == [] then call.(collector := Waiting, outbox := [Some(w)])
      else call.(collector := Waiting, closed := call.closed + {w})
    case Finish(_) =>
      call.(collector := Finished, outbox := if call.outbox == [] then [None] else call.outbox)
    case TakeMessage(_) => call.(caller := Got(call.outbox[0]))
    case Timeout(_) => call.(caller := TimedOut)
    case Cancel(_) => call.(caller := Cancelled)
  }

  function NextPool(s: State, step: Step): seq<nat>
    requires Reached(s, step)
  {
    match step
    case Pop(_) => s.pool[1..]
    case PushBack(c, w) => s.pool + [s.calls[c].workers[w].dialer]
    case _ => s.pool
  }

  function Next(p: Pool, s: State, step: Step): State
    requires Enabled(p, s, step)
  {
    if step.StartCall? then s.(calls := s.calls + [NEW_CALL])
    else State(NextPool(s, step), s.calls[step.c := NextCall(s, step)])
  }

  /** `steps` is a run from `s` to `t`. */
  ghost predicate Run(p: Pool, s: State, steps: seq<Step>, t: State)
    decreases |steps|
  {
    if steps == [] then s == t
    else Enabled(p, s, steps[0]) && Run(p, Next(p, s, steps[0]), steps[1..], t)
  }

  ghost predicate Reachable(p: Pool, s: State) {
    exists steps :: Run(p, Init(p), steps, s)
  }

  // ---------------------------------------------------------------- invariants

  ghost predicate Holds(s: State, c: nat, w: nat) {
    c < |s.calls| && w < |s.calls[c].workers| && !s.calls[c].workers[w].phase.Ended?
  }

  ghost function DialerOf(s: State, c: nat, w: nat): nat
    requires Holds(s, c, w)
  {
    s.calls[c].workers[w].dialer
  }

  ghost predicate HeldBySome(s: State, d: nat) {
    exists c, w :: Holds(s, c, w) && DialerOf(s, c, w) == d
  }

  ghost predicate Located(s: State, d: nat) {
    d in s.pool || HeldBySome(s, d)
  }

  /** Conservation: every dialer sits in the pool once or is held by one goroutine. */
  ghost predicate Conserved(p: Pool, s: State) {
    && Distinct(s.pool)
    && (forall d | d in s.pool :: d < p.dialers)
    && (forall c, w | Holds(s, c, w) :: DialerOf(s, c, w) < p.dialers && DialerOf(s, c, w) !in s.pool)
    && (forall c, w, c', w' | Holds(s, c, w) && Holds(s, c', w') && DialerOf(s, c, w) == DialerOf(s, c', w')
          :: c == c' && w == w')
    && (forall d: nat | d < p.dialers :: Located(s, d))
  }

  /** How many results the collector has dealt with. */
  function Handled(call: Call): int {
    call.taken - if call.collector.Handling? then 1 else 0
  }

  /** The k-th result sent on sshClients is a client. */
  ghost predicate MadeAt(call: Call, k: int) {
    0 <= k < |call.sends| && call.sends[k] < |call.workers| && call.workers[call.sends[k]].made
  }

  ghost predicate SendsInv(p: Pool, call: Call) {
    && Distinct(call.sends)
    && (forall w | w in call.sends :: w < |call.workers|)
    && (forall w: nat | w < |call.workers| ::
          w in call.sends <==> call.workers[w].phase.Sent? || call.workers[w].phase.Ended?)
    && (forall w: nat | w < |call.workers| && call.workers[w].phase.Dialing? :: !call.workers[w].made)
    && call.taken <= |call.sends| <= call.taken + p.capacity
    && |call.workers| <= p.dialers + p.capacity
    && (call.collector.NotStarted? <==> call.caller.Popping?)
    && (call.collector.NotStarted? ==> call.taken == 0)
    && (call.collector.Handling? ==> 0 < call.taken && call.collector.worker == call.sends[call.taken - 1])
    && (call.collector.Finished? ==> call.taken == |call.workers|)
  }

  /** A closed client was received, and handled. */
  ghost predicate ClosedAt(call: Call, w: nat) {
    exists k :: 0 <= k < Handled(call) && MadeAt(call, k) && call.sends[k] == w
  }

  /** The message and the closed clients, as a function of the arrival order: the first
      client to arrive is the message and every later one is closed. */
  ghost predicate OutboxInv(call: Call) {
    && (forall w | w in call.closed :: ClosedAt(call, w))
    && (call.caller.Got? ==> call.outbox == [call.caller.message])
    && (if call.outbox == [] then
          !call.collector.Finished? && call.closed == {} && forall k | 0 <= k < Handled(call) :: !MadeAt(call, k)
        else if call.outbox == [None] then
          call.collector.Finished? && call.closed == {} && forall k | 0 <= k < Handled(call) :: !MadeAt(call, k)
        else
          && |call.outbox| == 1
          && exists first :: FirstClient(call, first))
  }

  /** The first client among the handled results arrived at `first`: it is the message, and
      the other handled clients are the closed ones. */
  ghost predicate FirstClient(call: Call, first: int) {
    && 0 <= first < Handled(call) && MadeAt(call, first)
    && call.outbox == [Some(call.sends[first])]
    && (forall k | 0 <= k < first :: !MadeAt(call, k))
    && (forall k | first < k < Handled(call) && MadeAt(call, k) :: call.sends[k] in call.closed)
    && call.sends[first] !in call.closed
  }

  ghost predicate CallInv(p: Pool, call: Call) {
    SendsInv(p, call) && Handled(call) >= 0 && OutboxInv(call)
  }

  ghost predicate Inv(p: Pool, s: State) {
    ValidPool(p) && Conserved(p, s) && forall call | call in s.calls :: CallInv(p, call)
  }

  // ------------------------------------------------------- the pop loop is bounded

  /** The goroutines of a call that still hold a dialer are at most as many as the dialers. */
  lemma HoldersBound(p: Pool, s: State, c: nat, holding: set<nat>)
    requires Conserved(p, s) && forall w | w in holding :: Holds(s, c, w)
    ensures |holding| <= p.dialers
  {
    var f := (w: nat) => if c < |s.calls| && w < |s.calls[c].workers| then s.calls[c].workers[w].dialer else 0;
    assert forall w | w in holding :: f(w) == DialerOf(s, c, w);
    InjectionSize(holding, f, p.dialers);
  }

  /** While nobody reads sshClients, at most `capacity` of a call's goroutines can have
      pushed their dialer back, and the others hold distinct dialers. */
  lemma PopBound(p: Pool, s: State, c: nat)
    requires Conserved(p, s) && c < |s.calls|
    requires Distinct(s.calls[c].sends) && |s.calls[c].sends| <= p.capacity
    requires forall w: nat | w < |s.calls[c].workers| && s.calls[c].workers[w].phase.Ended? :: w in s.calls[c].sends
    ensures |s.calls[c].workers| <= p.dialers + p.capacity
  {
    var call := s.calls[c];
    var all, sent := Below(|call.workers|), Elements(call.sends);
    assert |sent| <= p.capacity by {
      DistinctSize(call.sends);
    }
    assert |all - sent| <= p.dialers by {
      HoldersBound(p, s, c, all - sent);
    }
    SubsetSize(all, (all - sent) + sent);
    assert |(all - sent) + sent| == |all - sent| + |sent|;
  }

  // ------------------------------------------------------- every step keeps the invariant

  lemma InitInv(p: Pool)
    requires ValidPool(p)
    ensures Inv(p, Init(p))
  {
    var s := Init(p);
    forall d: nat | d < p.dialers
      ensures Located(s, d)
    {
      assert s.pool[d] == d;
    }
  }

  /** A dialer held before a step by a goroutine that still holds it is still located. */
  lemma StillLocated(s: State, t: State, d: nat, kept: nat)
    requires Located(s, d) && d !in s.pool && d != kept
    requires forall c, w | Holds(s, c, w) && DialerOf(s, c, w) != kept ::
      Holds(t, c, w) && DialerOf(t, c, w) == DialerOf(s, c, w)
    ensures Located(t, d)
  {
  }

  /** A step that moves no dialer keeps the conservation law. */
  lemma ConservedSame(p: Pool, s: State, t: State)
    requires Conserved(p, s) && s.pool == t.pool
    requires forall c, w :: Holds(s, c, w) <==> Holds(t, c, w)
    requires forall c, w | Holds(s, c, w) :: DialerOf(s, c, w) == DialerOf(t, c, w)
    ensures Conserved(p, t)
  {
    forall d: nat | d < p.dialers
      ensures Located(t, d)
    {
      assert Located(s, d);
      if d !in s.pool {
        StillLocated(s, t, d, p.dialers);
      }
    }
  }

  lemma ConservedPop(p: Pool, s: State, step: Step)
    requires Conserved(p, s) && step.Pop? && Enabled(p, s, step)
    ensures Conserved(p, Next(p, s, step))
  {
    var t := Next(p, s, step);
    var c, w, popped := step.c, |s.calls[step.c].workers|, s.pool[0];
    assert popped in s.pool;
    assert Holds(t, c, w) && DialerOf(t, c, w) == popped;
    assert s.pool == [popped] + t.pool;
    assert forall d :: d in s.pool <==> d == popped || d in t.pool;
    assert popped !in t.pool;
    assert forall c', w' | Holds(s, c', w') :: Holds(t, c', w') && DialerOf(s, c', w') == DialerOf(t, c', w');
    assert forall c', w' | Holds(t, c', w') :: Holds(s, c', w') || (c' == c && w' == w);
    forall d: nat | d < p.dialers
      ensures Located(t, d)
    {
      assert Located(s, d);
      if d !in s.pool {
        StillLocated(s, t, d, popped);
      }
    }
  }

  lemma ConservedPushBack(p: Pool, s: State, step: Step)
    requires Conserved(p, s) && step.PushBack? && Enabled(p, s, step)
    ensures Conserved(p, Next(p, s, step))
  {
    var t := Next(p, s, step);
    var c, w := step.c, step.w;
    assert Holds(s, c, w);
    var back := DialerOf(s, c, w);
    assert t.pool == s.pool + [back];
    assert forall c', w' :: Holds(t, c', w') <==> Holds(s, c', w') && !(c' == c && w' == w);
    assert forall c', w' | Holds(t, c', w') :: DialerOf(s, c', w') == DialerOf(t, c', w');
    forall d: nat | d < p.dialers
      ensures Located(t, d)
    {
      assert Located(s, d);
      if d !in s.pool && d != back {
        StillLocated(s, t, d, back);
      }
    }
  }

  lemma ConservedStep(p: Pool, s: State, step: Step)
    requires Conserved(p, s) && Enabled(p, s, step)
    ensures Conserved(p, Next(p, s, step))
  {
    if step.Pop? {
      ConservedPop(p, s, step);
    } else if step.PushBack? {
      ConservedPushBack(p, s, step);
    } else {
      ConservedSame(p, s, Next(p, s, step));
    }
  }

  /** Steps that handle no result keep what is known of the message and the closed clients. */
  lemma OutboxSame(call: Call, next: Call)
    requires OutboxInv(call)
    requires Handled(next) == Handled(call) <= |call.sends| && next.outbox == call.outbox && next.closed == call.closed
    requires next.collector.Finished? <==> call.collector.Finished?
    requires next.caller.Got? ==> next.outbox == [next.caller.message]
    requires forall k | 0 <= k < Handled(call) :: k < |next.sends| && next.sends[k] == call.sends[k]
    requires forall k | 0 <= k < Handled(call) :: MadeAt(next, k) <==> MadeAt(call, k)
    ensures OutboxInv(next)
  {
    forall w | w in next.closed
      ensures ClosedAt(next, w)
    {
      assert ClosedAt(call, w);
      var k :| 0 <= k < Handled(call) && MadeAt(call, k) && call.sends[k] == w;
      assert MadeAt(next, k);
    }
    if call.outbox != [] && call.outbox != [None] {
      var first :| FirstClient(call, first);
      assert FirstClient(next, first);
    }
  }

  /** The steps of a dial goroutine keep the invariant of its call. */
  lemma WorkerStepSends(p: Pool, s: State, step: Step)
    requires Enabled(p, s, step) && (step.Dial? || step.Send? || step.PushBack?)
    requires SendsInv(p, s.calls[step.c])
    ensures SendsInv(p, NextCall(s, step))
    ensures step.w in s.calls[step.c].sends <==> step.PushBack?
  {
    var call := s.calls[step.c];
    assert step.w in call.sends <==> step.PushBack?;
  }

  lemma WorkerStepInv(p: Pool, s: State, step: Step)
    requires Enabled(p, s, step) && (step.Dial? || step.Send? || step.PushBack?)
    requires CallInv(p, s.calls[step.c])
    ensures CallInv(p, NextCall(s, step))
  {
    var call, next := s.calls[step.c], NextCall(s, step);
    WorkerStepSends(p, s, step);
    assert forall k | 0 <= k < |call.sends| :: call.sends[k] in call.sends;
    OutboxSame(call, next);
  }

  /** Receiving a result keeps it. */
  lemma ReceiveInv(p: Pool, s: State, step: Step)
    requires Enabled(p, s, step) && step.Receive?
    requires CallInv(p, s.calls[step.c])
    ensures CallInv(p, NextCall(s, step))
  {
    var call, next := s.calls[step.c], NextCall(s, step);
    assert call.sends[call.taken] in call.sends;
    OutboxSame(call, next);
  }

  /** Handling a received result delivers the first client and closes every later one. */
  lemma HandleInv(p: Pool, s: State, step: Step)
    requires Enabled(p, s, step) && step.Handle?
    requires CallInv(p, s.calls[step.c])
    ensures CallInv(p, NextCall(s, step))
  {
    var call, next := s.calls[step.c], NextCall(s, step);
    var w, k := call.collector.worker, call.taken - 1;
    assert call.sends[k] == w && Handled(next) == k + 1 && Handled(call) == k;
    assert forall j :: MadeAt(next, j) <==> MadeAt(call, j);
    forall x | x in next.closed
      ensures ClosedAt(next, x)
    {
      if x in call.closed {
        assert ClosedAt(call, x);
        var j :| 0 <= j < Handled(call) && MadeAt(call, j) && call.sends[j] == x;
        assert MadeAt(next, j);
      } else {
        assert MadeAt(next, k);
      }
    }
    if call.outbox == [] {
      if next.outbox != [] {
        assert FirstClient(next, k);
      }
    } else {
      var first :| FirstClient(call, first);
      assert FirstClient(next, first);
    }
  }

  /** The collector ends with the empty message exactly when no client arrived. */
  lemma FinishInv(p: Pool, s: State, step: Step)
    requires Enabled(p, s, step) && step.Finish?
    requires CallInv(p, s.calls[step.c])
    ensures CallInv(p, NextCall(s, step))
  {
    var call, next := s.calls[step.c], NextCall(s, step);
    Pigeonhole(call.sends, |call.workers|);
    assert forall j :: MadeAt(next, j) <==> MadeAt(call, j);
    if call.outbox != [] {
      var first :| FirstClient(call, first);
      assert FirstClient(next, first);
      forall x | x in next.closed
        ensures ClosedAt(next, x)
      {
        assert ClosedAt(call, x);
        var j :| 0 <= j < Handled(call) && MadeAt(call, j) && call.sends[j] == x;
        assert MadeAt(next, j);
      }
    }
  }

  /** The steps of the caller keep the invariant; popping stays within its bound. */
  lemma CallerStepInv(p: Pool, s: State, step: Step)
    requires Inv(p, s) && Enabled(p, s, step)
    requires step.Pop? || step.LeaveLoop? || step.TakeMessage? || step.Timeout? || step.Cancel?
    ensures CallInv(p, NextCall(s, step))
  {
    var call, next := s.calls[step.c], NextCall(s, step);
    assert CallInv(p, call);
    assert |next.workers| <= p.dialers + p.capacity by {
      if step.Pop? {
        ConservedStep(p, s, step);
        PopBound(p, Next(p, s, step), step.c);
      }
    }
    assert SendsInv(p, next);
    assert forall k | 0 <= k < |call.sends| :: call.sends[k] in call.sends;
    OutboxSame(call, next);
  }

  lemma StepInv(p: Pool, s: State, step: Step)
    requires Inv(p, s) && Enabled(p, s, step)
    ensures Inv(p, Next(p, s, step))
  {
    ConservedStep(p, s, step);
    assert !step.StartCall? ==> CallInv(p, s.calls[step.c]);
    match step {
      case StartCall =>
      case Dial(_, _, _) => WorkerStepInv(p, s, step);
      case Send(_, _) => WorkerStepInv(p, s, step);
      case PushBack(_, _) => WorkerStepInv(p, s, step);
      case Receive(_) => ReceiveInv(p, s, step);
      case Handle(_) => HandleInv(p, s, step);
      case Finish(_) => FinishInv(p, s, step);
      case _ => CallerStepInv(p, s, step);
    }
  }

  lemma {:induction false} RunInv(p: Pool, s: State, steps: seq<Step>, t: State)
    requires Inv(p, s) && Run(p, s, steps, t)
    ensures Inv(p, t)
    decreases |steps|
  {
    if steps != [] {
      StepInv(p, s, steps[0]);
      RunInv(p, Next(p, s, steps[0]), steps[1..], t);
    }
  }

  lemma ReachableInv(p: Pool, s: State)
    requires ValidPool(p) && Reachable(p, s)
    ensures Inv(p, s)
  {
    InitInv(p);
    var steps :| Run(p, Init(p), steps, s);
    RunInv(p, Init(p), steps, s);
  }

  // ------------------------------------------------------- what every run guarantees

  /** In every reachable state a dialer is in the pool, once, or some goroutine holds it, and
      then it is the only one to. */
  lemma DialerHasOnePlace(p: Pool, s: State, d: nat)
    requires ValidPool(p) && Reachable(p, s) && d < p.dialers
    ensures d in s.pool ==> multiset(s.pool)[d] == 1
    ensures d in s.pool <==> !exists c, w :: Holds(s, c, w) && DialerOf(s, c, w) == d
    ensures forall c, w, c', w' | Holds(s, c, w) && Holds(s, c', w') && DialerOf(s, c, w) == DialerOf(s, c', w') == d
      :: c == c' && w == w'
  {
    ReachableInv(p, s);
    assert Located(s, d);
    if d in s.pool {
      DistinctOnce(s.pool, d);
    }
  }

  /** A goroutine that gives its dialer back finds room in the pool, and the collector finds
      room for the message: neither send ever blocks. */
  lemma NeverBlocks(p: Pool, s: State, step: Step)
    requires ValidPool(p) && Reachable(p, s)
    requires Reached(s, step) && (step.PushBack? || step.Handle? || step.Finish?)
    ensures Enabled(p, s, step)
  {
    ReachableInv(p, s);
    PushBackUnblocked(p, s, step);
  }

  lemma PushBackUnblocked(p: Pool, s: State, step: Step)
    requires Inv(p, s) && Reached(s, step) && (step.PushBack? || step.Handle? || step.Finish?)
    ensures Enabled(p, s, step)
  {
    assert CallInv(p, s.calls[step.c]);
    if step.PushBack? {
      assert Holds(s, step.c, step.w);
      PigeonholeMissing(s.pool, p.dialers, DialerOf(s, step.c, step.w));
    }
  }

  /** A call goes on popping as long as some dialer is free, and stops as soon as every one
      of them is held by some goroutine. */
  lemma PopsWhileFree(p: Pool, s: State, c: nat)
    requires ValidPool(p) && Reachable(p, s) && c < |s.calls| && s.calls[c].caller.Popping?
    ensures Enabled(p, s, LeaveLoop(c)) <==> forall d: nat | d < p.dialers :: HeldBySome(s, d)
    ensures Enabled(p, s, Pop(c)) <==> exists d: nat :: d < p.dialers && !HeldBySome(s, d)
  {
    ReachableInv(p, s);
    if s.pool == [] {
      forall d: nat | d < p.dialers
        ensures HeldBySome(s, d)
      {
        assert Located(s, d);
      }
    } else {
      var free := s.pool[0];
      assert free in s.pool && free < p.dialers && !HeldBySome(s, free);
    }
  }

  /** The pop loop drains a pool that finished goroutines refill, and still stops: no call
      ever pops more than `dialers + capacity` dialers. */
  lemma PopsAreBounded(p: Pool, s: State, c: nat)
    requires ValidPool(p) && Reachable(p, s) && c < |s.calls|
    ensures |s.calls[c].workers| <= p.dialers + p.capacity
  {
    ReachableInv(p, s);
    assert CallInv(p, s.calls[c]);
  }

  /** The client a goroutine of the call was given has been closed. */
  predicate Closed(call: Call, w: nat) {
    w in call.closed
  }

  /** When the collector of a call has finished, it has received one result per popped
      dialer with none left over and sent exactly one message: the client that arrived
      first, or the empty message if no dial gave one. Every other client is closed. */
  lemma CollectorDelivers(p: Pool, s: State, c: nat)
    requires ValidPool(p) && Reachable(p, s) && c < |s.calls| && s.calls[c].collector.Finished?
    ensures var call := s.calls[c];
      && call.taken == |call.sends| == |call.workers|
      && |call.outbox| == 1
      && (forall w: nat | w < |call.workers| :: call.workers[w].phase.Sent? || call.workers[w].phase.Ended?)
      && (forall w: nat | w < |call.workers| && call.workers[w].made :: Closed(call, w) != (call.outbox == [Some(w)]))
      && (forall w: nat | Closed(call, w) :: w < |call.workers| && call.workers[w].made)
      && (call.outbox == [None] <==> forall w: nat | w < |call.workers| :: !call.workers[w].made)
      && (call.outbox != [None] ==>
            exists k ::
              MadeAt(call, k) && call.outbox == [Some(call.sends[k])] && forall j | 0 <= j < k :: !MadeAt(call, j))
  {
    ReachableInv(p, s);
    var call := s.calls[c];
    assert CallInv(p, call);
    Pigeonhole(call.sends, |call.workers|);
    forall w: nat | w < |call.workers| && call.workers[w].made
      ensures call.outbox != [None] && Closed(call, w) != (call.outbox == [Some(w)])
    {
      assert w in call.sends;
      var k :| 0 <= k < |call.sends| && call.sends[k] == w;
      assert MadeAt(call, k);
      var first :| FirstClient(call, first);
    }
    if call.outbox != [None] {
      var first :| FirstClient(call, first);
      assert MadeAt(call, first);
    }
    forall w: nat | Closed(call, w)
      ensures w < |call.workers| && call.workers[w].made
    {
      assert ClosedAt(call, w);
    }
  }

  /** A client nobody will close or use: neither closed nor handed to the caller. */
  predicate Leaked(call: Call, w: nat) {
    w < |call.workers| && call.workers[w].made && !Closed(call, w) && call.caller != Got(Some(w))
  }

  /** Exactly when a finished call leaks a client: the caller stopped waiting before the
      message, and some dial gave a client. The leaked client is the message. */
  lemma LeakExactly(p: Pool, s: State, c: nat)
    requires ValidPool(p) && Reachable(p, s) && c < |s.calls|
    requires s.calls[c].collector.Finished? && !s.calls[c].caller.Selecting?
    ensures var call := s.calls[c];
      (exists w: nat :: Leaked(call, w)) <==>
      (!call.caller.Got? && exists w: nat :: w < |call.workers| && call.workers[w].made)
    ensures forall w: nat | Leaked(s.calls[c], w) :: s.calls[c].outbox == [Some(w)]
  {
    ReachableInv(p, s);
    var call := s.calls[c];
    assert CallInv(p, call);
    CollectorDelivers(p, s, c);
    if !call.caller.Got? && exists w: nat :: w < |call.workers| && call.workers[w].made {
      var k :| MadeAt(call, k) && call.outbox == [Some(call.sends[k])];
      assert Leaked(call, call.sends[k]);
    }
  }

  lemma {:induction false} MadeSince(p: Pool, s: State, steps: seq<Step>, t: State, c: nat, w: nat)
    requires Run(p, s, steps, t) && c < |t.calls| && w < |t.calls[c].workers|
    requires c < |s.calls| && w < |s.calls[c].workers| ==>
      (s.calls[c].workers[w].phase.Dialing? ==> !s.calls[c].workers[w].made)
    ensures t.calls[c].workers[w].made <==>
      || (c < |s.calls| && w < |s.calls[c].workers| && s.calls[c].workers[w].made)
      || Dial(c, w, true) in steps
    decreases |steps|
  {
    if steps != [] {
      MadeSince(p, Next(p, s, steps[0]), steps[1..], t, c, w);
    }
  }

  /** A goroutine has a client exactly when its dial succeeded; so a call that ends with the
      empty message is one in which no dial did. */
  lemma EmptyMessageExactly(p: Pool, steps: seq<Step>, s: State, c: nat)
    requires ValidPool(p) && Run(p, Init(p), steps, s) && c < |s.calls|
    ensures forall w: nat | w < |s.calls[c].workers| :: s.calls[c].workers[w].made <==> Dial(c, w, true) in steps
    ensures s.calls[c].collector.Finished? ==>
      (s.calls[c].outbox == [None] <==> forall w: nat | w < |s.calls[c].workers| :: Dial(c, w, true) !in steps)
  {
    forall w: nat | w < |s.calls[c].workers|
      ensures s.calls[c].workers[w].made <==> Dial(c, w, true) in steps
    {
      MadeSince(p, Init(p), steps, s, c, w);
    }
    if s.calls[c].collector.Finished? {
      CollectorDelivers(p, s, c);
    }
  }

  lemma {:induction false} RunExtend(p: Pool, s: State, steps: seq<Step>, t: State, step: Step)
    requires Run(p, s, steps, t) && Enabled(p, t, step)
    ensures Run(p, s, steps + [step], Next(p, t, step))
    decreases |steps|
  {
    var longer := steps + [step];
    if steps == [] {
      assert longer[1..] == [];
    } else {
      RunExtend(p, Next(p, s, steps[0]), steps[1..], t, step);
      assert longer[1..] == steps[1..] + [step];
    }
  }

  lemma ReachNext(p: Pool, s: State, step: Step, t: State)
    requires Reachable(p, s) && Enabled(p, s, step) && t == Next(p, s, step)
    ensures Reachable(p, t)
  {
    var steps :| Run(p, Init(p), steps, s);
    RunExtend(p, Init(p), steps, s, step);
  }

  /** Such a run exists: with a single dialer the caller times out, then the dial succeeds. */
  lemma LeakHappens()
    ensures exists s ::
      Reachable(Pool(1, 1), s) && |s.calls| == 1 && s.calls[0].collector.Finished? && Leaked(s.calls[0], 0)
  {
    var p := Pool(1, 1);
    var s0 := State([0], []);
    assert s0 == Init(p) && Run(p, s0, [], s0);
    var s1 := State([0], [NEW_CALL]);
    ReachNext(p, s0, StartCall, s1);
    var s2 := State([], [Call([Worker(0, Dialing, false)], [], 0, NotStarted, [], {}, Popping)]);
    assert NextCall(s1, Pop(0)).workers == s2.calls[0].workers;
    ReachNext(p, s1, Pop(0), s2);
    var s3 := State([], [Call([Worker(0, Dialing, false)], [], 0, Waiting, [], {}, Selecting)]);
    ReachNext(p, s2, LeaveLoop(0), s3);
    var s4 := State([], [Call([Worker(0, Dialing, false)], [], 0, Waiting, [], {}, TimedOut)]);
    ReachNext(p, s3, Timeout(0), s4);
    LeakAfterTimeout(p, s4);
  }

  lemma LeakAfterTimeout(p: Pool, s4: State)
    requires p == Pool(1, 1) && Reachable(p, s4)
    requires s4 == State([], [Call([Worker(0, Dialing, false)], [], 0, Waiting, [], {}, TimedOut)])
    ensures exists s ::
      Reachable(p, s) && |s.calls| == 1 && s.calls[0].collector.Finished? && Leaked(s.calls[0], 0)
  {
    var s5 := State([], [Call([Worker(0, Ready, true)], [], 0, Waiting, [], {}, TimedOut)]);
    assert NextCall(s4, Dial(0, 0, true)).workers == s5.calls[0].workers;
    ReachNext(p, s4, Dial(0, 0, true), s5);
    var s6 := State([], [Call([Worker(0, Sent, true)], [0], 0, Waiting, [], {}, TimedOut)]);
    assert NextCall(s5, Send(0, 0)).workers == s6.calls[0].workers;
    assert NextCall(s5, Send(0, 0)).sends == s6.calls[0].sends;
    ReachNext(p, s5, Send(0, 0), s6);
    var s7 := State([], [Call([Worker(0, Sent, true)], [0], 1, Handling(0), [], {}, TimedOut)]);
    ReachNext(p, s6, Receive(0), s7);
    var s8 := State([], [Call([Worker(0, Sent, true)], [0], 1, Waiting, [Some(0)], {}, TimedOut)]);
    ReachNext(p, s7, Handle(0), s8);
    var s9 := State([], [Call([Worker(0, Sent, true)], [0], 1, Finished, [Some(0)], {}, TimedOut)]);
    ReachNext(p, s8, Finish(0), s9);
    assert Leaked(s9.calls[0], 0);
  }

  // ------------------------------------------------------- every call ends

  function WorkerFuel(w: Worker): nat {
    match w.phase
    case Dialing => 3
    case Ready => 2
    case Sent => 1
    case Ended => 0
  }

  function WorkersFuel(ws: seq<Worker>): nat {
    if ws == [] then 0 else WorkersFuel(ws[..|ws| - 1]) + WorkerFuel(ws[|ws| - 1])
  }

  /** A bound on the steps a call still has in front of it. */
  function Fuel(p: Pool, call: Call): int {
    WorkersFuel(call.workers)
    + 2 * (|call.workers| - call.taken)
    + (match call.collector case Handling(_) => 2 case Finished => 0 case _ => 1)
    + (match call.caller
       case Popping => 2 + 6 * (p.dialers + p.capacity - |call.workers|)
       case Selecting => 1
       case _ => 0)
  }

  function MaxSteps(p: Pool): nat {
    6 * (p.dialers + p.capacity) + 3
  }

  lemma {:induction false} WorkersFuelUpdate(ws: seq<Worker>, i: nat, w: Worker)
    requires i < |ws|
    ensures WorkersFuel(ws[i := w]) == WorkersFuel(ws) - WorkerFuel(ws[i]) + WorkerFuel(w)
  {
    var last := |ws| - 1;
    var us := ws[i := w];
    if i == last {
      assert us[..last] == ws[..last];
    } else {
      WorkersFuelUpdate(ws[..last], i, w);
      assert us[..last] == ws[..last][i := w];
    }
  }

  /** Each of its steps burns fuel of a call, and the steps of other calls none. */
  lemma StepBurnsFuel(p: Pool, s: State, step: Step, c: nat)
    requires Inv(p, s) && Enabled(p, s, step) && c < |s.calls|
    ensures Fuel(p, Next(p, s, step).calls[c]) <= Fuel(p, s.calls[c]) - (if StepOf(step, c) then 1 else 0)
  {
    if StepOf(step, c) {
      if step.Dial? || step.Send? || step.PushBack? {
        WorkerStepBurnsFuel(p, s, step);
      } else {
        OtherStepBurnsFuel(p, s, step);
      }
    }
  }

  lemma WorkerStepBurnsFuel(p: Pool, s: State, step: Step)
    requires Enabled(p, s, step) && (step.Dial? || step.Send? || step.PushBack?)
    ensures Fuel(p, NextCall(s, step)) < Fuel(p, s.calls[step.c])
  {
    WorkersFuelUpdate(s.calls[step.c].workers, step.w, NextCall(s, step).workers[step.w]);
  }

  lemma OtherStepBurnsFuel(p: Pool, s: State, step: Step)
    requires Inv(p, s) && Enabled(p, s, step)
    requires !step.StartCall? && !step.Dial? && !step.Send? && !step.PushBack?
    ensures Fuel(p, NextCall(s, step)) < Fuel(p, s.calls[step.c])
  {
    var call, next := s.calls[step.c], NextCall(s, step);
    assert CallInv(p, call);
    if step.Pop? {
      assert next.workers[..|call.workers|] == call.workers;
    }
  }

  lemma FuelIsNatural(p: Pool, s: State, c: nat)
    requires Inv(p, s) && c < |s.calls|
    ensures 0 <= Fuel(p, s.calls[c])
  {
    assert CallInv(p, s.calls[c]);
    Pigeonhole(s.calls[c].sends, |s.calls[c].workers|);
  }

  predicate StepOf(step: Step, c: nat) {
    !step.StartCall? && step.c == c
  }

  function StepsOf(steps: seq<Step>, c: nat): nat {
    if steps == [] then 0 else (if StepOf(steps[0], c) then 1 else 0) + StepsOf(steps[1..], c)
  }

  lemma {:induction false} RunBurnsFuel(p: Pool, s: State, steps: seq<Step>, t: State, c: nat)
    requires Inv(p, s) && Run(p, s, steps, t)
    ensures StepsOf(steps, c) <= if c < |s.calls| then Fuel(p, s.calls[c]) else MaxSteps(p)
    decreases |steps|
  {
    if steps == [] {
      if c < |s.calls| {
        FuelIsNatural(p, s, c);
      }
    } else {
      var next := Next(p, s, steps[0]);
      StepInv(p, s, steps[0]);
      RunBurnsFuel(p, next, steps[1..], t, c);
      if c < |s.calls| {
        StepBurnsFuel(p, s, steps[0], c);
      }
    }
  }

  /** However the goroutines interleave, a call takes a bounded number of steps, so neither
      its pop loop nor its collector can go on forever. */
  lemma CallsAreBounded(p: Pool, steps: seq<Step>, t: State, c: nat)
    requires ValidPool(p) && Run(p, Init(p), steps, t)
    ensures StepsOf(steps, c) <= MaxSteps(p)
  {
    InitInv(p);
    RunBurnsFuel(p, Init(p), steps, t, c);
  }

  /** The goroutines of the call have all ended. */
  ghost predicate Settled(call: Call) {
    call.collector.Finished? && forall w: nat | w < |call.workers| :: call.workers[w].phase.Ended?
  }

  /** Nor can it get stuck: until everything has ended, some goroutine of the call can move,
      whatever the caller that waits for the message does. */
  lemma NoDeadlock(p: Pool, s: State, c: nat)
    requires ValidPool(p) && Reachable(p, s) && c < |s.calls| && !Settled(s.calls[c])
    ensures exists step ::
      StepOf(step, c) && !step.TakeMessage? && !step.Timeout? && !step.Cancel? && Enabled(p, s, step)
  {
    ReachableInv(p, s);
    var call := s.calls[c];
    assert CallInv(p, call);
    var step: Step;
    if call.caller.Popping? {
      step := if s.pool == [] then LeaveLoop(c) else Pop(c);
    } else if call.collector.Handling? {
      step := Handle(c);
      assert call.collector.worker in call.sends;
      PushBackUnblocked(p, s, step);
    } else if call.collector.Waiting? && call.taken < |call.sends| {
      Pigeonhole(call.sends, |call.workers|);
      step := Receive(c);
    } else if call.collector.Waiting? && call.taken >= |call.workers| {
      step := Finish(c);
      PushBackUnblocked(p, s, step);
    } else {
      step := StuckWorker(p, s, c);
    }
    assert Enabled(p, s, step);
  }

  /** With nothing left to receive, a goroutine of the call that has not ended can move. */
  lemma StuckWorker(p: Pool, s: State, c: nat) returns (step: Step)
    requires Inv(p, s) && c < |s.calls| && !Settled(s.calls[c])
    requires var call := s.calls[c];
      || call.collector.Finished?
      || (call.collector.Waiting? && call.taken == |call.sends| < |call.workers|)
    ensures (step.Dial? || step.Send? || step.PushBack?) && step.c == c && Enabled(p, s, step)
  {
    var call := s.calls[c];
    assert CallInv(p, call);
    var w: nat;
    Pigeonhole(call.sends, |call.workers|);
    if call.collector.Finished? {
      w :| w < |call.workers| && !call.workers[w].phase.Ended?;
    } else {
      w := Unsent(call.sends, |call.workers|);
    }
    assert Holds(s, c, w);
    match call.workers[w].phase {
      case Dialing => step := Dial(c, w, false);
      case Ready => step := Send(c, w);
      case Sent =>
        step := PushBack(c, w);
        PushBackUnblocked(p, s, step);
      case Ended =>
    }
  }

  lemma Unsent(q: seq<nat>, n: nat) returns (w: nat)
    requires Distinct(q) && |q| < n
    ensures w < n && w !in q
  {
    if forall x: nat | x < n :: x in q {
      DistinctSize(q);
      SubsetSize(Below(n), Elements(q));
    }
    w :| w < n && w !in q;
  }
}
