/** The task tunnel of common/tunneltask.go and the context table of netserve/context.go that
    is looked up and filled through it.

    Any number of callers put tasks on a channel of bounded capacity; one worker takes them
    off, runs each and signals the caller on a channel of its own. The model is a transition
    system over every interleaving. A task is either the lookup of GetUdpNetContext, whose
    read and write of the table are separate steps, or any other task, which may panic.
    Entries of the table may expire at any moment. */
module Tunnel {
  import opened Counting
  import opened Outcomes

  datatype Task = GetContext(addr: nat) | Other

  /** Panics with an error value are logged; LogError panics again on any other value, which
      ends the program. */
  datatype Ending = Normal | ErrorPanic | OtherPanic

  datatype Worker =
    | Idle
    | Running(c: nat)
    | Creating(c: nat)
    | Signalling(c: nat, how: Ending)
    | Recovering(c: nat, how: Ending)
    | Crashed

  /** Sending: at the send on the task channel. Waiting: at the receive from execOver. */
  datatype Phase = Sending | Waiting | Done

  /** `signal` says that the execOver channel, of one slot, is full; `result` is the context
      that the task found or made. Contexts are named by numbers. */
  datatype Call = Call(task: Task, phase: Phase, signal: bool, result: Option<nat>)

  datatype Event = Got(c: nat, addr: nat, ctx: nat) | Expired(addr: nat)

  /** The task channel, the worker, the calls, the table and the number of contexts made; and
      the calls in the order of their sends, of the starts and of the ends of their tasks,
      and what happened to the table. */
  datatype State = State(queue: seq<nat>, worker: Worker, calls: seq<Call>, table: map<nat, nat>, made: nat,
                         sent: seq<nat>, ran: seq<nat>, ended: seq<nat>, log: seq<Event>)

  datatype Step =
    | Begin(task: Task)
    | Send(c: nat)
    | Take
    | Lookup
    | Create
    | Finish(how: Ending)
    | Signal
    | Recover
    | Return(c: nat)
    | Expire(addr: nat)

  predicate RunsTask(s: State, getContext: bool) {
    s.worker.Running? && s.worker.c < |s.calls| && s.calls[s.worker.c].task.GetContext? == getContext
  }

  predicate Enabled(capacity: nat, s: State, step: Step) {
    !s.worker.Crashed? &&
    match step
    case Begin(_) => true
    case Send(c) => c < |s.calls| && s.calls[c].phase.Sending? && |s.queue| < capacity
    case Take => s.worker.Idle? && s.queue != []
    case Lookup => RunsTask(s, true)
    case Create => s.worker.Creating? && s.worker.c < |s.calls| && s.calls[s.worker.c].task.GetContext?
    case Finish(_) => RunsTask(s, false)
    case Signal => s.worker.Signalling? && s.worker.c < |s.calls| && !s.calls[s.worker.c].signal
    case Recover => s.worker.Recovering?
    case Return(c) => c < |s.calls| && s.calls[c].phase.Waiting? && s.calls[c].signal
    case Expire(addr) => addr in s.table
  }

  /** Call c has its context and its task has ended. */
  function Gets(s: State, c: nat, addr: nat, ctx: nat): State
    requires c < |s.calls|
  {
    s.(worker := Signalling(c, Normal), calls := s.calls[c := s.calls[c].(result := Some(ctx))],
       ended := s.ended + [c], log := s.log + [Got(c, addr, ctx)])
  }

  function Next(capacity: nat, s: State, step: Step): State
    requires Enabled(capacity, s, step)
  {
    match step
    case Begin(task) => s.(calls := s.calls + [Call(task, Sending, false, None)])
    case Send(c) =>
      s.(calls := s.calls[c := s.calls[c].(phase := Waiting)], queue := s.queue + [c], sent := s.sent + [c])
    case Take => s.(worker := Running(s.queue[0]), queue := s.queue[1..], ran := s.ran + [s.queue[0]])
    case Lookup =>
      var c := s.worker.c;
      var addr := s.calls[c].task.addr;
      if addr in s.table then Gets(s, c, addr, s.table[addr]) else s.(worker := Creating(c))
    case Create =>
      var addr := s.calls[s.worker.c].task.addr;
      Gets(s, s.worker.c, addr, s.made).(table := s.table[addr := s.made], made := s.made + 1)
    case Finish(how) => s.(worker := Signalling(s.worker.c, how), ended := s.ended + [s.worker.c])
    case Signal =>
      var c := s.worker.c;
      s.(worker := Recovering(c, s.worker.how), calls := s.calls[c := s.calls[c].(signal := true)])
    case Recover => s.(worker := if s.worker.how.OtherPanic? then Crashed else Idle)
    case Return(c) => s.(calls := s.calls[c := s.calls[c].(phase := Done, signal := false)])
    case Expire(addr) => s.(table := s.table - {addr}, log := s.log + [Expired(addr)])
  }

  const INIT := State([], Idle, [], map[], 0, [], [], [], [])

  ghost predicate Run(capacity: nat, s: State, steps: seq<Step>, t: State)
    decreases |steps|
  {
    if steps == [] then s == t
    else Enabled(capacity, s, steps[0]) && Run(capacity, Next(capacity, s, steps[0]), steps[1..], t)
  }

  ghost predicate Reachable(capacity: nat, s: State) {
    exists steps :: Run(capacity, INIT, steps, s)
  }

  // ---------------------------------------------------------------- the tunnel

  /** The task whose call is being run, if any. */
  function Current(s: State): seq<nat> {
    if s.worker.Running? || s.worker.Creating? then [s.worker.c] else []
  }

  /** Tasks leave the channel in the order they entered it, and all that have started but
      the current one have ended, in that order. */
  ghost predicate OrderInv(capacity: nat, s: State) {
    && s.sent == s.ran + s.queue
    && s.ran == s.ended + Current(s)
    && |s.queue| <= capacity
    && Distinct(s.sent)
    && forall c: nat :: c in s.sent <==> c < |s.calls| && !s.calls[c].phase.Sending?
  }

  /** A call has a signal, or has returned, only when its task has ended; it lacks one then
      only while the worker is about to give it. */
  ghost predicate CallInv(s: State, c: nat)
    requires c < |s.calls|
  {
    var call := s.calls[c];
    && (call.signal ==> call.phase.Waiting? && c in s.ended)
    && (call.phase.Done? ==> c in s.ended)
    && (c in s.ended && call.phase.Waiting? && !call.signal ==> s.worker.Signalling? && s.worker.c == c)
    && (c in s.ended && call.task.GetContext? ==>
          call.result.Some? && Got(c, call.task.addr, call.result.value) in s.log)
  }

  ghost predicate WorkerInv(s: State) {
    && (s.worker.Creating? ==> s.worker.c < |s.calls| && s.calls[s.worker.c].task.GetContext?)
    && (s.worker.Signalling? ==> s.worker.c < |s.calls| && s.worker.c in s.ended
                                 && s.calls[s.worker.c].phase.Waiting? && !s.calls[s.worker.c].signal)
  }

  ghost predicate Inv(capacity: nat, s: State) {
    OrderInv(capacity, s) && WorkerInv(s) && forall c: nat | c < |s.calls| :: CallInv(s, c)
  }

  lemma SendOrder(capacity: nat, s: State, c: nat)
    requires OrderInv(capacity, s) && Enabled(capacity, s, Send(c))
    ensures OrderInv(capacity, Next(capacity, s, Send(c)))
  {
    var t := Next(capacity, s, Send(c));
    assert forall d: nat :: d in t.sent <==> d in s.sent || d == c;
    assert t.sent == t.ran + t.queue;
  }

  lemma TakeOrder(capacity: nat, s: State)
    requires OrderInv(capacity, s) && Enabled(capacity, s, Take)
    ensures OrderInv(capacity, Next(capacity, s, Take))
  {
    assert s.queue == [s.queue[0]] + s.queue[1..];
  }

  lemma OtherOrder(capacity: nat, s: State, step: Step)
    requires OrderInv(capacity, s) && Enabled(capacity, s, step) && !step.Send? && !step.Take?
    ensures OrderInv(capacity, Next(capacity, s, step))
  {
    var t := Next(capacity, s, step);
    assert t.ran == s.ran && t.ran == t.ended + Current(t);
    assert |t.calls| >= |s.calls|
      && forall c: nat | c < |s.calls| :: t.calls[c].phase.Sending? == s.calls[c].phase.Sending?;
  }

  lemma OrderStep(capacity: nat, s: State, step: Step)
    requires OrderInv(capacity, s) && Enabled(capacity, s, step)
    ensures OrderInv(capacity, Next(capacity, s, step))
  {
    match step {
      case Send(c) => SendOrder(capacity, s, c);
      case Take => TakeOrder(capacity, s);
      case _ => OtherOrder(capacity, s, step);
    }
  }

  /** The call that the worker runs is waiting, and its task has not ended. */
  lemma CurrentIsWaiting(capacity: nat, s: State)
    requires Inv(capacity, s) && (s.worker.Running? || s.worker.Creating?)
    ensures s.worker.c < |s.calls| && s.calls[s.worker.c].phase.Waiting?
    ensures s.worker.c !in s.ended && !s.calls[s.worker.c].signal
  {
    var c, n := s.worker.c, |s.ended|;
    assert s.sent[n] == c && c in s.sent;
    forall k | 0 <= k < n
      ensures s.ended[k] != c
    {
      assert s.sent[k] == s.ended[k];
    }
    assert CallInv(s, c);
  }

  /** Steps that leave the ends and the table alone. */
  lemma QueueStep(capacity: nat, s: State, step: Step)
    requires Inv(capacity, s) && Enabled(capacity, s, step)
    requires step.Begin? || step.Send? || step.Take? || step.Recover? || step.Expire?
    ensures Inv(capacity, Next(capacity, s, step))
  {
    OrderStep(capacity, s, step);
    var t := Next(capacity, s, step);
    forall c: nat | c < |t.calls|
      ensures CallInv(t, c)
    {
      if c < |s.calls| {
        assert CallInv(s, c);
        assert forall e | e in s.log :: e in t.log;
      } else {
        assert c !in s.sent;
        assert forall d | d in s.ended :: d in s.sent;
      }
      if step == Send(c) {
        assert forall d | d in s.ended :: d in s.sent;
      }
    }
  }

  /** Steps that end the current task. */
  lemma EndStep(capacity: nat, s: State, step: Step)
    requires Inv(capacity, s) && Enabled(capacity, s, step)
    requires step.Lookup? || step.Create? || step.Finish?
    ensures Inv(capacity, Next(capacity, s, step))
  {
    OrderStep(capacity, s, step);
    CurrentIsWaiting(capacity, s);
    var t := Next(capacity, s, step);
    forall c: nat | c < |t.calls|
      ensures CallInv(t, c)
    {
      assert CallInv(s, c);
      assert forall e | e in s.log :: e in t.log;
      assert c in t.ended <==> c in s.ended || (t.ended != s.ended && c == s.worker.c);
    }
  }

  lemma SignalStep(capacity: nat, s: State, step: Step)
    requires Inv(capacity, s) && Enabled(capacity, s, step) && (step.Signal? || step.Return?)
    ensures Inv(capacity, Next(capacity, s, step))
  {
    OrderStep(capacity, s, step);
    var t := Next(capacity, s, step);
    forall c: nat | c < |t.calls|
      ensures CallInv(t, c)
    {
      assert CallInv(s, c);
    }
  }

  lemma StepInv(capacity: nat, s: State, step: Step)
    requires Inv(capacity, s) && Enabled(capacity, s, step)
    ensures Inv(capacity, Next(capacity, s, step))
  {
    match step {
      case Lookup => EndStep(capacity, s, step);
      case Create => EndStep(capacity, s, step);
      case Finish(_) => EndStep(capacity, s, step);
      case Signal => SignalStep(capacity, s, step);
      case Return(_) => SignalStep(capacity, s, step);
      case _ => QueueStep(capacity, s, step);
    }
  }

  lemma {:induction false} RunInv(capacity: nat, s: State, steps: seq<Step>, t: State)
    requires Inv(capacity, s) && TableInv(s) && Run(capacity, s, steps, t)
    ensures Inv(capacity, t) && TableInv(t)
    decreases |steps|
  {
    if steps != [] {
      StepInv(capacity, s, steps[0]);
      TableStep(capacity, s, steps[0]);
      RunInv(capacity, Next(capacity, s, steps[0]), steps[1..], t);
    }
  }

  lemma ReachableInv(capacity: nat, s: State)
    requires Reachable(capacity, s)
    ensures Inv(capacity, s) && TableInv(s)
  {
    var steps :| Run(capacity, INIT, steps, s);
    RunInv(capacity, INIT, steps, s);
  }

  /** Tasks run one at a time in the order in which they entered the channel. */
  lemma OneAtATime(capacity: nat, s: State)
    requires Reachable(capacity, s)
    ensures s.ran <= s.sent && s.sent == s.ran + s.queue && Distinct(s.ran)
    ensures s.ended <= s.ran && |s.ran| <= |s.ended| + 1
    ensures |s.ran| == |s.ended| + 1 <==> s.worker.Running? || s.worker.Creating?
  {
    ReachableInv(capacity, s);
    assert forall k | 0 <= k < |s.ran| :: s.ran[k] == s.sent[k];
  }

  /** No call returns before its own task has ended, whether normally or by a panic. */
  lemma ReturnsAfterTask(capacity: nat, s: State, c: nat)
    requires Reachable(capacity, s) && c < |s.calls| && s.calls[c].phase.Done?
    ensures c in s.ended
  {
    ReachableInv(capacity, s);
    assert CallInv(s, c);
  }

  /** A task has panicked with a value that is no error, and the worker will crash or has. */
  predicate Crashing(s: State) {
    s.worker.Crashed? || ((s.worker.Signalling? || s.worker.Recovering?) && s.worker.how.OtherPanic?)
  }

  lemma {:induction false} CrashesSince(capacity: nat, s: State, steps: seq<Step>, t: State)
    requires Run(capacity, s, steps, t)
    ensures Crashing(t) <==> Crashing(s) || Finish(OtherPanic) in steps
    decreases |steps|
  {
    if steps != [] {
      CrashesSince(capacity, Next(capacity, s, steps[0]), steps[1..], t);
    }
  }

  /** The worker outlives every task but one that panics with a value that is no error, and
      never outlives that one: having signalled its caller it recovers, and crashes. */
  lemma CrashesExactly(capacity: nat, steps: seq<Step>, s: State)
    requires Run(capacity, INIT, steps, s)
    ensures Crashing(s) <==> Finish(OtherPanic) in steps
    ensures s.worker.Recovering? ==>
      Enabled(capacity, s, Recover) && (Next(capacity, s, Recover).worker.Crashed? <==> Finish(OtherPanic) in steps)
  {
    CrashesSince(capacity, INIT, steps, s);
  }

  /** The worker never blocks on a signal, and as long as the program has not crashed some
      caller or the worker can go on until all calls have returned. */
  lemma NeverStuck(capacity: nat, s: State)
    requires capacity > 0 && Reachable(capacity, s) && !s.worker.Crashed?
    ensures s.worker.Signalling? ==> Enabled(capacity, s, Signal)
    ensures (forall c: nat | c < |s.calls| :: s.calls[c].phase.Done?)
         || exists step: Step :: !step.Begin? && !step.Expire? && Enabled(capacity, s, step)
  {
    ReachableInv(capacity, s);
    if c: nat :| c < |s.calls| && !s.calls[c].phase.Done? {
      if s.worker.Running? {
        CurrentIsWaiting(capacity, s);
      }
      var step := match s.worker
        case Idle => if s.queue != [] then Take else if s.calls[c].phase.Sending? then Send(c) else Return(c)
        case Running(r) => if s.calls[r].task.GetContext? then Lookup else Finish(Normal)
        case Creating(_) => Create
        case Signalling(_, _) => Signal
        case _ => Recover;
      if step.Return? {
        assert CallInv(s, c) && c in s.sent && s.sent == s.ended;
      }
      assert Enabled(capacity, s, step);
    }
  }

  // ---------------------------------------------------------------- the table

  /** The context that the first n events leave in the table for an address. */
  function Live(log: seq<Event>, n: nat, addr: nat): Option<nat>
    requires n <= |log|
  {
    if n == 0 then None
    else if log[n - 1].addr != addr then Live(log, n - 1, addr)
    else if log[n - 1].Got? then Some(log[n - 1].ctx)
    else None
  }

  /** A call gets the live context of its address, or a new one where there is none. */
  ghost predicate Follows(log: seq<Event>, k: nat)
    requires k < |log|
  {
    log[k].Got? ==>
      if Live(log, k, log[k].addr).Some? then log[k].ctx == Live(log, k, log[k].addr).value
      else forall i: nat | i < k && log[i].Got? :: log[i].ctx != log[k].ctx
  }

  ghost predicate ValidLog(log: seq<Event>) {
    forall k: nat | k < |log| :: Follows(log, k)
  }

  ghost predicate Matches(table: map<nat, nat>, made: nat, log: seq<Event>) {
    && (forall a: nat :: a in table <==> Live(log, |log|, a).Some?)
    && (forall a: nat | a in table :: table[a] == Live(log, |log|, a).value)
    && (forall k: nat | k < |log| && log[k].Got? :: log[k].ctx < made)
    && ValidLog(log)
  }

  /** While the worker is between its lookup and its write, the address has no entry. */
  ghost predicate TableInv(s: State) {
    && Matches(s.table, s.made, s.log)
    && (s.worker.Creating? ==> s.worker.c < |s.calls| && s.calls[s.worker.c].task.GetContext?
                               && s.calls[s.worker.c].task.addr !in s.table)
  }

  lemma {:induction false} LiveBefore(log: seq<Event>, e: Event, n: nat, addr: nat)
    requires n <= |log|
    ensures Live(log + [e], n, addr) == Live(log, n, addr)
  {
    if n > 0 {
      LiveBefore(log, e, n - 1, addr);
    }
  }

  lemma LogGrows(log: seq<Event>, e: Event)
    requires ValidLog(log) && Follows(log + [e], |log|)
    ensures ValidLog(log + [e])
    ensures forall a: nat | a != e.addr :: Live(log + [e], |log| + 1, a) == Live(log, |log|, a)
  {
    forall k: nat | k < |log|
      ensures Follows(log + [e], k)
    {
      assert Follows(log, k);
      LiveBefore(log, e, k, log[k].addr);
    }
    forall a: nat | a != e.addr
      ensures Live(log + [e], |log| + 1, a) == Live(log, |log|, a)
    {
      LiveBefore(log, e, |log|, a);
    }
  }

  lemma GotMatches(table: map<nat, nat>, made: nat, log: seq<Event>, e: Event)
    requires Matches(table, made, log) && e.Got? && e.ctx == if e.addr in table then table[e.addr] else made
    ensures Matches(table[e.addr := e.ctx], if e.addr in table then made else made + 1, log + [e])
  {
    if e.addr in table {
      LiveWasGot(log, |log|, e.addr);
    }
    LiveBefore(log, e, |log|, e.addr);
    LogGrows(log, e);
  }

  lemma LookupStep(capacity: nat, s: State)
    requires TableInv(s) && Enabled(capacity, s, Lookup)
    ensures TableInv(Next(capacity, s, Lookup))
  {
    var c, t := s.worker.c, Next(capacity, s, Lookup);
    var addr := s.calls[c].task.addr;
    if addr in s.table {
      GotMatches(s.table, s.made, s.log, Got(c, addr, s.table[addr]));
      assert s.table[addr := s.table[addr]] == s.table;
    }
  }

  lemma CreateStep(capacity: nat, s: State)
    requires TableInv(s) && Enabled(capacity, s, Create)
    ensures TableInv(Next(capacity, s, Create))
  {
    GotMatches(s.table, s.made, s.log, Got(s.worker.c, s.calls[s.worker.c].task.addr, s.made));
  }

  lemma ExpireStep(capacity: nat, s: State, addr: nat)
    requires TableInv(s) && Enabled(capacity, s, Expire(addr))
    ensures TableInv(Next(capacity, s, Expire(addr)))
  {
    LogGrows(s.log, Expired(addr));
  }

  lemma TableStep(capacity: nat, s: State, step: Step)
    requires TableInv(s) && Enabled(capacity, s, step)
    ensures TableInv(Next(capacity, s, step))
  {
    match step {
      case Lookup => LookupStep(capacity, s);
      case Create => CreateStep(capacity, s);
      case Expire(addr) => ExpireStep(capacity, s, addr);
      case _ =>
    }
  }

  ghost predicate ExpiredBetween(log: seq<Event>, i: nat, j: nat, addr: nat)
    requires j <= |log|
  {
    exists k: nat :: i < k < j && log[k] == Expired(addr)
  }

  lemma ExpiredSnoc(log: seq<Event>, i: nat, j: nat, addr: nat)
    requires i < j < |log|
    ensures ExpiredBetween(log, i, j + 1, addr) <==> ExpiredBetween(log, i, j, addr) || log[j] == Expired(addr)
  {
  }

  /** From its getting at i, context x stays the live one of its address up to an expiry, and
      never becomes it again afterwards. */
  lemma {:induction false} LiveSince(log: seq<Event>, i: nat, j: nat)
    requires ValidLog(log) && i < j <= |log| && log[i].Got?
    ensures Live(log, j, log[i].addr) == Some(log[i].ctx) <==> !ExpiredBetween(log, i, j, log[i].addr)
    decreases j
  {
    if j > i + 1 {
      LiveSince(log, i, j - 1);
      assert Follows(log, j - 1);
      ExpiredSnoc(log, i, j - 1, log[i].addr);
    }
  }

  /** Two calls for one address get the same context exactly when its entry did not expire
      between them. */
  lemma SameContextExactly(capacity: nat, s: State, i: nat, j: nat)
    requires Reachable(capacity, s) && i < j < |s.log|
    requires s.log[i].Got? && s.log[j].Got? && s.log[i].addr == s.log[j].addr
    ensures s.log[i].ctx == s.log[j].ctx <==> !ExpiredBetween(s.log, i, j, s.log[i].addr)
  {
    ReachableInv(capacity, s);
    LiveSince(s.log, i, j);
    assert Follows(s.log, j);
  }

  lemma {:induction false} LiveWasGot(log: seq<Event>, n: nat, addr: nat)
    requires n <= |log| && Live(log, n, addr).Some?
    ensures exists k: nat :: k < n && log[k].Got? && log[k].addr == addr && log[k].ctx == Live(log, n, addr).value
  {
    if log[n - 1].addr != addr {
      LiveWasGot(log, n - 1, addr);
    }
  }

  /** Calls for different addresses never share a context. */
  lemma {:induction false} ContextHasOneAddress(log: seq<Event>, i: nat, j: nat)
    requires ValidLog(log) && i < j < |log| && log[i].Got? && log[j].Got? && log[i].ctx == log[j].ctx
    ensures log[i].addr == log[j].addr
    decreases j
  {
    var addr := log[j].addr;
    assert Follows(log, j);
    LiveWasGot(log, j, addr);
    var k: nat :| k < j && log[k].Got? && log[k].addr == addr && log[k].ctx == Live(log, j, addr).value;
    if k != i {
      ContextHasOneAddress(log, if i < k then i else k, if i < k then k else i);
    }
  }

  /** GetUdpNetContext: whatever the interleaving, calls for one address whose entry has not
      expired all return the same context, and calls for different addresses different ones. */
  lemma ContextsPerAddress(capacity: nat, s: State, c: nat, d: nat)
    requires Reachable(capacity, s) && c < |s.calls| && d < |s.calls| && c != d
    requires s.calls[c].phase.Done? && s.calls[d].phase.Done?
    requires s.calls[c].task.GetContext? && s.calls[d].task.GetContext?
    requires Expired(s.calls[c].task.addr) !in s.log
    ensures s.calls[c].result.Some? && s.calls[d].result.Some?
    ensures s.calls[c].result == s.calls[d].result <==> s.calls[c].task.addr == s.calls[d].task.addr
  {
    ReachableInv(capacity, s);
    assert CallInv(s, c) && CallInv(s, d);
    var i: nat :| i < |s.log| && s.log[i] == Got(c, s.calls[c].task.addr, s.calls[c].result.value);
    var j: nat :| j < |s.log| && s.log[j] == Got(d, s.calls[d].task.addr, s.calls[d].result.value);
    var first, second := if i < j then i else j, if i < j then j else i;
    assert i != j;
    if s.log[i].ctx == s.log[j].ctx {
      ContextHasOneAddress(s.log, first, second);
    }
    if s.log[i].addr == s.log[j].addr {
      SameContextExactly(capacity, s, first, second);
    }
  }
}
