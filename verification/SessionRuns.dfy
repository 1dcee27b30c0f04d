/** Whole runs of a session: any serial sequence of requests and writes on one context, all
    of which return normally, and what they tell the peer. */
module SessionRuns {
  import opened Bytes
  import opened Exchange
  import opened Outcomes
  import opened Packet
  import opened Repeats
  import opened Session
  import opened Words

  datatype Op =
    | Request(data: seq<byte>)
    | BeginStream(size: int, packsize: int)
    | Write(seqno: nat, now: nat, data: seq<byte>)

  /** What an operation shows: a request that is accepted or taken for a repeat, and a write
      with a header (Opened) or without (Bare), under the send IV. */
  datatype Event =
    | Accepted(seqno: nat)
    | Repeated(seqno: nat)
    | Began
    | Opened(out: seq<byte>, iv: seq<byte>)
    | Bare(out: seq<byte>, iv: seq<byte>)

  predicate IsWrite(e: Event) {
    e.Opened? || e.Bare?
  }

  function Step(cr: Crypto, ctx: Ctx, op: Op): Result<(Ctx, Event)>
    requires ValidCrypto(cr)
  {
    match op
    case BeginStream(size, packsize) =>
      Returned((ctx.(stream := true, size := size, packsize := packsize), Began))
    case Request(data) =>
      (match DecodeData(cr, ctx, data)
       case Panicked => Panicked
       case Returned((next, plain)) =>
         Returned((next, if plain.Some? then Accepted(ParseHdr(data).seqno) else Repeated(ParseHdr(data).seqno))))
    case Write(seqno, now, data) =>
      (match EncodeWrite(cr, ctx, seqno, now, data)
       case Panicked => Panicked
       case Returned((next, out)) =>
         Returned((next, if AwaitsHeader(ctx) then Opened(out, next.sendiv) else Bare(out, next.sendiv))))
  }

  /** The operations, one after the other, on a new context. */
  function Run(cr: Crypto, ops: seq<Op>): (r: Result<(Ctx, seq<Event>)>)
    requires ValidCrypto(cr)
    ensures r.Returned? ==> |r.value.1| == |ops|
  {
    if ops == [] then Returned((NEW_CONTEXT, []))
    else
      match Run(cr, ops[..|ops| - 1])
      case Panicked => Panicked
      case Returned((ctx, events)) =>
        match Step(cr, ctx, ops[|ops| - 1])
        case Panicked => Panicked
        case Returned((next, e)) => Returned((next, events + [e]))
  }

  /** The last accepted request or write. */
  function LastKey(events: seq<Event>): Option<Event> {
    if events == [] then None
    else
      var e := events[|events| - 1];
      if e.Accepted? || IsWrite(e) then Some(e) else LastKey(events[..|events| - 1])
  }

  /** The number of the last request, accepted or not; 0 before the first. */
  function LastNumber(events: seq<Event>): nat {
    if events == [] then 0
    else
      var e := events[|events| - 1];
      if e.Accepted? || e.Repeated? then e.seqno else LastNumber(events[..|events| - 1])
  }

  /** What the context remembers of the events so far. */
  ghost predicate Remembers(ctx: Ctx, events: seq<Event>) {
    && ctx.ack == LastNumber(events)
    && match LastKey(events)
       case None => ctx.state == 0 && !ctx.updateiv && ctx.aeskey == []
       case Some(Accepted(_)) => AwaitsHeader(ctx) && ctx.updateiv && |ctx.aeskey| == 16
       case Some(e) =>
         && (ctx.state == 3 || ctx.state == 11) && !ctx.updateiv && |ctx.aeskey| == 16
         && IsWrite(e) && ctx.sendiv == e.iv && |e.iv| == 16
  }

  /** A write whose predecessors are `before` carries a header exactly when the last thing
      that happened, repeats aside, is an accepted request; any other write repeats the send
      IV of the write before it. A request counts as a repeat exactly when its number is that
      of the request before it, and not zero. */
  ghost predicate Follows(before: seq<Event>, e: Event) {
    match e
    case Opened(_, _) => LastKey(before).Some? && LastKey(before).value.Accepted?
    case Bare(_, iv) => LastKey(before).Some? && IsWrite(LastKey(before).value) && LastKey(before).value.iv == iv
    case Accepted(n) => n == 0 || n != LastNumber(before)
    case Repeated(n) => n != 0 && n == LastNumber(before)
    case Began => true
  }

  lemma Snoc(events: seq<Event>, e: Event)
    ensures (events + [e])[..|events|] == events
    ensures LastKey(events + [e]) == if e.Accepted? || IsWrite(e) then Some(e) else LastKey(events)
    ensures LastNumber(events + [e]) == if e.Accepted? || e.Repeated? then e.seqno else LastNumber(events)
  {
  }

  lemma RequestStep(cr: Crypto, ctx: Ctx, events: seq<Event>, op: Op, next: Ctx, e: Event)
    requires ValidCrypto(cr) && Remembers(ctx, events) && op.Request? && Step(cr, ctx, op) == Returned((next, e))
    ensures Follows(events, e) && Remembers(next, events + [e])
    ensures e.Repeated? ==> next == ctx
  {
    Snoc(events, e);
  }

  lemma WriteStep(cr: Crypto, ctx: Ctx, events: seq<Event>, op: Op, next: Ctx, e: Event)
    requires ValidCrypto(cr) && Remembers(ctx, events) && op.Write? && Step(cr, ctx, op) == Returned((next, e))
    ensures Follows(events, e) && Remembers(next, events + [e])
  {
    Snoc(events, e);
    EncryptedDecrypts(cr, UpdatedIv(cr, ctx), op.data);
  }

  lemma StepRemembers(cr: Crypto, ctx: Ctx, events: seq<Event>, op: Op, next: Ctx, e: Event)
    requires ValidCrypto(cr) && Remembers(ctx, events) && Step(cr, ctx, op) == Returned((next, e))
    ensures Follows(events, e) && Remembers(next, events + [e])
    ensures e.Repeated? ==> next == ctx
  {
    match op {
      case Request(_) => RequestStep(cr, ctx, events, op, next, e);
      case Write(_, _, _) => WriteStep(cr, ctx, events, op, next, e);
      case BeginStream(_, _) => Snoc(events, e);
    }
  }

  lemma {:induction false} RunRemembers(cr: Crypto, ops: seq<Op>)
    requires ValidCrypto(cr) && Run(cr, ops).Returned?
    ensures var (ctx, events) := Run(cr, ops).value;
      Remembers(ctx, events) && forall i | 0 <= i < |events| :: Follows(events[..i], events[i])
  {
    if ops != [] {
      var before := ops[..|ops| - 1];
      RunRemembers(cr, before);
      var (ctx, events) := Run(cr, before).value;
      var (next, e) := Step(cr, ctx, ops[|ops| - 1]).value;
      StepRemembers(cr, ctx, events, ops[|ops| - 1], next, e);
      var all := events + [e];
      assert all[..|events|] == events;
      assert forall i | 0 <= i < |events| :: all[..i] == events[..i];
    }
  }

  /** In every run the state stays in {0, 2, 3, 10, 11}, the first write after an accepted
      request, and only that one, carries a header, and a repeated request is told from a
      new one by its number alone. */
  lemma RunsFollowTheProtocol(cr: Crypto, ops: seq<Op>, i: nat)
    requires ValidCrypto(cr) && Run(cr, ops).Returned? && i < |ops|
    ensures var (ctx, events) := Run(cr, ops).value;
      && ctx.state in {0, 2, 3, 10, 11}
      && Follows(events[..i], events[i])
      && (IsWrite(events[i]) ==>
            LastKey(events[..i]).Some? && (events[i].Opened? <==> LastKey(events[..i]).value.Accepted?))
  {
    RunRemembers(cr, ops);
  }

  /** All writes of a run between two accepted requests use the same send IV. */
  lemma SameIvUntilNextRequest(cr: Crypto, ops: seq<Op>, i: nat, j: nat)
    requires ValidCrypto(cr) && Run(cr, ops).Returned? && i <= j < |ops|
    requires var events := Run(cr, ops).value.1;
      IsWrite(events[i]) && IsWrite(events[j]) && forall k | i < k < j :: !events[k].Accepted?
    ensures Run(cr, ops).value.1[i].iv == Run(cr, ops).value.1[j].iv
  {
    RunRemembers(cr, ops);
    SameIv(Run(cr, ops).value.1, i, j);
  }

  lemma {:induction false} SameIv(events: seq<Event>, i: nat, j: nat)
    requires forall k | 0 <= k < |events| :: Follows(events[..k], events[k])
    requires i <= j < |events| && IsWrite(events[i]) && IsWrite(events[j])
    requires forall k | i < k < j :: !events[k].Accepted?
    ensures events[i].iv == events[j].iv
    decreases j
  {
    if i < j {
      var k := LastWrite(events, i, j);
      assert events[j].Bare? && Follows(events[..j], events[j]);
      SameIv(events, i, k);
    }
  }

  /** Without an accepted request in between, the last key event before j is a write from i on. */
  lemma {:induction false} LastWrite(events: seq<Event>, i: nat, j: nat) returns (k: nat)
    requires i < j <= |events| && IsWrite(events[i]) && forall x | i < x < j :: !events[x].Accepted?
    ensures i <= k < j && IsWrite(events[k]) && LastKey(events[..j]) == Some(events[k])
    decreases j
  {
    var last := events[..j][j - 1];
    assert last == events[j - 1];
    if IsWrite(last) {
      k := j - 1;
    } else {
      k := LastWrite(events, i, j - 1);
      assert events[..j][..j - 1] == events[..j - 1];
    }
  }

  /** The events of a run of the first n operations are the first n events. */
  lemma {:induction false} RunPrefix(cr: Crypto, ops: seq<Op>, n: nat)
    requires ValidCrypto(cr) && Run(cr, ops).Returned? && n <= |ops|
    ensures Run(cr, ops[..n]).Returned? && Run(cr, ops[..n]).value.1 == Run(cr, ops).value.1[..n]
    decreases |ops|
  {
    if n == |ops| {
      assert ops[..n] == ops;
    } else {
      var before := ops[..|ops| - 1];
      RunPrefix(cr, before, n);
      assert before[..n] == ops[..n];
      assert Run(cr, ops).value.1[..n] == Run(cr, before).value.1[..n];
    }
  }

  /** The i-th event is what the i-th operation shows after the ones before it. */
  lemma EventOfStep(cr: Crypto, ops: seq<Op>, i: nat)
    requires ValidCrypto(cr) && Run(cr, ops).Returned? && i < |ops|
    ensures Run(cr, ops[..i]).Returned?
    ensures var r := Step(cr, Run(cr, ops[..i]).value.0, ops[i]);
      r.Returned? && r.value.1 == Run(cr, ops).value.1[i]
  {
    var upto := ops[..i + 1];
    RunPrefix(cr, ops, i + 1);
    assert upto[..|upto| - 1] == ops[..i] && upto[|upto| - 1] == ops[i];
    assert Run(cr, ops).value.1[..i + 1][i] == Run(cr, ops).value.1[i];
  }

  lemma OpenedAnswers(cr: Crypto, ctx: Ctx, op: Op, next: Ctx, e: Event)
    requires ValidCrypto(cr) && op.Write? && op.seqno < TWO_TO_THE_32 && op.now < TWO_TO_THE_64
    requires Step(cr, ctx, op) == Returned((next, e)) && e.Opened?
    ensures |e.out| >= 4
    ensures var msgtype := if ctx.state == 2 then 2 else if ctx.stream then 4 else 3;
      Answers(cr, ctx.aeskey, e.iv, ctx.ack, Hdr(0, msgtype, 2, op.seqno, op.now), op.data, e.out[4..])
  {
    FirstWriteAnswers(cr, ctx, op.seqno, op.now, op.data, next, e.out);
  }

  /** Requests since the last accepted one are repeats of its number. */
  lemma {:induction false} AcceptedIsLast(events: seq<Event>)
    requires forall k | 0 <= k < |events| :: Follows(events[..k], events[k])
    requires LastKey(events).Some? && LastKey(events).value.Accepted?
    ensures LastNumber(events) == LastKey(events).value.seqno
  {
    var n := |events| - 1;
    if !events[n].Accepted? {
      assert forall k | 0 <= k < n :: events[..n][..k] == events[..k];
      AcceptedIsLast(events[..n]);
      assert Follows(events[..n], events[n]);
    }
  }

  /** The header of a first write acknowledges the request it answers: the last one that was
      accepted. */
  lemma OpenedAcknowledges(cr: Crypto, ops: seq<Op>, i: nat)
    requires ValidCrypto(cr) && Run(cr, ops).Returned? && i < |ops| && ops[i].Write?
    requires ops[i].seqno < TWO_TO_THE_32 && ops[i].now < TWO_TO_THE_64
    requires Run(cr, ops).value.1[i].Opened?
    ensures Run(cr, ops[..i]).Returned?
    ensures var request := LastKey(Run(cr, ops).value.1[..i]); request.Some? && request.value.Accepted?
    ensures var ctx, events := Run(cr, ops[..i]).value.0, Run(cr, ops).value.1;
      && |events[i].out| >= 4
      && var msgtype := if ctx.state == 2 then 2 else if ctx.stream then 4 else 3;
      Answers(cr, ctx.aeskey, events[i].iv, LastKey(events[..i]).value.seqno,
              Hdr(0, msgtype, 2, ops[i].seqno, ops[i].now), ops[i].data, events[i].out[4..])
  {
    EventOfStep(cr, ops, i);
    RunPrefix(cr, ops, i);
    RunsFollowTheProtocol(cr, ops, i);
    RunRemembers(cr, ops[..i]);
    AcceptedIsLast(Run(cr, ops[..i]).value.1);
    var ctx := Run(cr, ops[..i]).value.0;
    var (next, e) := Step(cr, ctx, ops[i]).value;
    OpenedAnswers(cr, ctx, ops[i], next, e);
  }

  // ------------------------------------------------------------------ the request of an answer

  lemma {:induction false} AcceptedAt(events: seq<Event>, i: nat) returns (j: nat)
    requires i <= |events| && LastKey(events[..i]).Some? && LastKey(events[..i]).value.Accepted?
    ensures j < i && events[j].Accepted? && forall k | j < k < i :: !events[k].Accepted? && !IsWrite(events[k])
  {
    j := i - 1;
    assert events[..i][i - 1] == events[i - 1];
    if !events[i - 1].Accepted? {
      assert events[..i][..i - 1] == events[..i - 1];
      j := AcceptedAt(events, i - 1);
    }
  }

  /** The contexts that a run goes through. */
  ghost predicate Path(cr: Crypto, ops: seq<Op>, events: seq<Event>, ctxs: seq<Ctx>)
    requires ValidCrypto(cr)
  {
    && |events| == |ops| && |ctxs| == |ops| + 1 && ctxs[0] == NEW_CONTEXT
    && forall k: nat | k < |ops| :: Step(cr, ctxs[k], ops[k]) == Returned((ctxs[k + 1], events[k]))
  }

  lemma {:induction false} RunPath(cr: Crypto, ops: seq<Op>) returns (ctxs: seq<Ctx>)
    requires ValidCrypto(cr) && Run(cr, ops).Returned?
    ensures Path(cr, ops, Run(cr, ops).value.1, ctxs) && ctxs[|ops|] == Run(cr, ops).value.0
  {
    if ops == [] {
      ctxs := [NEW_CONTEXT];
    } else {
      var before, op := ops[..|ops| - 1], ops[|ops| - 1];
      var (ctx, events) := Run(cr, before).value;
      var (next, e) := Step(cr, ctx, op).value;
      ctxs := RunPath(cr, before);
      PathSnoc(cr, before, events, ctxs, op, next, e);
      ctxs := ctxs + [next];
      assert before + [op] == ops;
    }
  }

  lemma PathSnoc(cr: Crypto, ops: seq<Op>, events: seq<Event>, ctxs: seq<Ctx>, op: Op, next: Ctx, e: Event)
    requires ValidCrypto(cr) && Path(cr, ops, events, ctxs)
    requires Step(cr, ctxs[|ops|], op) == Returned((next, e))
    ensures Path(cr, ops + [op], events + [e], ctxs + [next])
  {
  }

  /** An operation that is neither a write nor an accepted request leaves the keys alone. */
  lemma QuietStep(cr: Crypto, ctx: Ctx, op: Op, next: Ctx, e: Event)
    requires ValidCrypto(cr) && Step(cr, ctx, op) == Returned((next, e))
    requires !e.Accepted? && !IsWrite(e)
    ensures Holds(next, ctx)
  {
  }

  /** What the context took from a request stays until the next request or write. */
  lemma {:induction false} KeysStay(cr: Crypto, ops: seq<Op>, events: seq<Event>, ctxs: seq<Ctx>, j: nat, i: nat)
    requires ValidCrypto(cr) && Path(cr, ops, events, ctxs) && j < i <= |ops|
    requires forall k | j < k < i :: !events[k].Accepted? && !IsWrite(events[k])
    ensures Holds(ctxs[i], ctxs[j + 1])
    decreases i
  {
    if i > j + 1 {
      KeysStay(cr, ops, events, ctxs, j, i - 1);
      QuietStep(cr, ctxs[i - 1], ops[i - 1], ctxs[i], events[i - 1]);
    }
  }

  /** A stream was begun before operation i. */
  ghost predicate Streaming(ops: seq<Op>, i: nat)
    requires i <= |ops|
  {
    exists k :: 0 <= k < i && ops[k].BeginStream?
  }

  lemma {:induction false} StreamsExactly(cr: Crypto, ops: seq<Op>, events: seq<Event>, ctxs: seq<Ctx>, i: nat)
    requires ValidCrypto(cr) && Path(cr, ops, events, ctxs) && i <= |ops|
    ensures ctxs[i].stream <==> Streaming(ops, i)
    decreases i
  {
    if i > 0 {
      StreamsExactly(cr, ops, events, ctxs, i - 1);
      StepStreams(cr, ctxs[i - 1], ops[i - 1], ctxs[i], events[i - 1]);
    }
  }

  lemma StepStreams(cr: Crypto, ctx: Ctx, op: Op, next: Ctx, e: Event)
    requires ValidCrypto(cr) && Step(cr, ctx, op) == Returned((next, e))
    ensures next.stream <==> ctx.stream || op.BeginStream?
  {
  }

  /** In every run each first write answers, on the wire, the last request before it that was
      accepted: its client can read the answer with nothing but what it sent. It opens a
      stream exactly when one was begun before. */
  lemma OpenedAnswersRequest(cr: Crypto, ops: seq<Op>, i: nat)
    returns (j: nat, key: seq<byte>, iv: seq<byte>, head: seq<byte>, tail: seq<byte>)
    requires ValidCrypto(cr) && Run(cr, ops).Returned? && i < |ops| && ops[i].Write?
    requires ops[i].seqno < TWO_TO_THE_32 && ops[i].now < TWO_TO_THE_64
    requires Run(cr, ops).value.1[i].Opened?
    ensures var events := Run(cr, ops).value.1;
      && j < i && events[j].Accepted? && (forall k | j < k < i :: !events[k].Accepted? && !IsWrite(events[k]))
      && ops[j].Request? && Requests(cr, ops[j].data, key, iv, head, tail)
      && AnsweredAt(cr, ops[j].data, key, iv, Streaming(ops, i), ops[i], events[i])
  {
    var events := Run(cr, ops).value.1;
    RunsFollowTheProtocol(cr, ops, i);
    j := AcceptedAt(events, i);
    var ctxs := RunPath(cr, ops);
    key, iv, head, tail := PathAnswers(cr, ops, events, ctxs, j, i);
  }

  lemma PathAnswers(cr: Crypto, ops: seq<Op>, events: seq<Event>, ctxs: seq<Ctx>, j: nat, i: nat)
    returns (key: seq<byte>, iv: seq<byte>, head: seq<byte>, tail: seq<byte>)
    requires ValidCrypto(cr) && Path(cr, ops, events, ctxs) && j < i < |ops| && ops[i].Write?
    requires ops[i].seqno < TWO_TO_THE_32 && ops[i].now < TWO_TO_THE_64 && events[i].Opened?
    requires events[j].Accepted? && forall k | j < k < i :: !events[k].Accepted? && !IsWrite(events[k])
    ensures ops[j].Request? && Requests(cr, ops[j].data, key, iv, head, tail)
    ensures AnsweredAt(cr, ops[j].data, key, iv, Streaming(ops, i), ops[i], events[i])
  {
    KeysStay(cr, ops, events, ctxs, j, i);
    StreamsExactly(cr, ops, events, ctxs, i);
    key, iv := ctxs[j + 1].aeskey, ctxs[j + 1].recviv;
    head, tail := StepAnswers(cr, ctxs[j], ops[j], ctxs[j + 1], events[j], ctxs[i], ops[i], ctxs[i + 1], events[i]);
  }

  /** The event e of a first write answers the request. */
  ghost predicate AnsweredAt(
    cr: Crypto, request: seq<byte>, key: seq<byte>, iv: seq<byte>, stream: bool, op: Op, e: Event)
    requires ValidCrypto(cr) && op.Write? && e.Opened?
  {
    && |request| >= HDR_SIZE && |e.out| >= 4
    && AnswersRequest(cr, key, iv, request, stream, op.seqno, op.now, op.data, e.out[4..])
    && e.iv == AnswerIv(cr, iv, request, e.out[4..])
  }

  lemma StepAnswers(
    cr: Crypto, before: Ctx, op: Op, taken: Ctx, e: Event, ctx: Ctx, op': Op, next: Ctx, e': Event)
    returns (head: seq<byte>, tail: seq<byte>)
    requires ValidCrypto(cr) && op'.Write? && op'.seqno < TWO_TO_THE_32 && op'.now < TWO_TO_THE_64
    requires Step(cr, before, op) == Returned((taken, e)) && e.Accepted?
    requires Step(cr, ctx, op') == Returned((next, e')) && e'.Opened? && Holds(ctx, taken)
    ensures op.Request? && Requests(cr, op.data, taken.aeskey, taken.recviv, head, tail)
    ensures AnsweredAt(cr, op.data, taken.aeskey, taken.recviv, ctx.stream, op', e')
  {
    head, tail := AcceptedIsRequest(cr, before, op.data, taken, DecodeData(cr, before, op.data).value.1.value);
    WriteAnswersRequest(cr, before, op.data, taken.aeskey, taken.recviv, ctx,
                        op'.seqno, op'.now, op'.data, next, e'.out);
  }

  /** The IV of a first write is the hash of 36 bytes that hold its number. */
  lemma OpenedIv(cr: Crypto, ops: seq<Op>, i: nat) returns (x: seq<byte>)
    requires ValidCrypto(cr) && Run(cr, ops).Returned? && i < |ops| && ops[i].Write?
    requires ops[i].seqno < TWO_TO_THE_32 && ops[i].now < TWO_TO_THE_64
    requires Run(cr, ops).value.1[i].Opened?
    ensures |x| == 36 && Run(cr, ops).value.1[i].iv == cr.md5(x) && FromLe(x[24..28]) == ops[i].seqno
  {
    var j, key, iv, head, tail := OpenedAnswersRequest(cr, ops, i);
    x := InputOfAnswer(cr, ops[j].data, key, iv, head, tail, Streaming(ops, i), ops[i], Run(cr, ops).value.1[i]);
  }

  lemma InputOfAnswer(
    cr: Crypto, request: seq<byte>, key: seq<byte>, iv: seq<byte>, head: seq<byte>, tail: seq<byte>,
    stream: bool, op: Op, e: Event) returns (x: seq<byte>)
    requires ValidCrypto(cr) && op.Write? && e.Opened? && Requests(cr, request, key, iv, head, tail)
    requires AnsweredAt(cr, request, key, iv, stream, op, e)
    ensures |x| == 36 && e.iv == cr.md5(x) && FromLe(x[24..28]) == op.seqno
  {
    IvLength(cr, request, key, iv);
    x := IvInput(iv, request, e.out[4..]);
    assert x[24..28] == e.out[4..][16..20];
  }

  /** Two first writes of a run with different numbers, as the shared counter gives them out,
      have different send IVs, unless the hash collides on two inputs of 36 bytes. */
  lemma FreshIvs(cr: Crypto, ops: seq<Op>, i: nat, j: nat) returns (x: seq<byte>, y: seq<byte>)
    requires ValidCrypto(cr) && Run(cr, ops).Returned?
    requires i < |ops| && ops[i].Write? && ops[i].seqno < TWO_TO_THE_32 && ops[i].now < TWO_TO_THE_64
    requires j < |ops| && ops[j].Write? && ops[j].seqno < TWO_TO_THE_32 && ops[j].now < TWO_TO_THE_64
    requires var events := Run(cr, ops).value.1; events[i].Opened? && events[j].Opened?
    requires ops[i].seqno != ops[j].seqno
    ensures x != y && |x| == |y| == 36
    ensures var events := Run(cr, ops).value.1; events[i].iv == cr.md5(x) && events[j].iv == cr.md5(y)
  {
    x := OpenedIv(cr, ops, i);
    y := OpenedIv(cr, ops, j);
  }

  // ------------------------------------------------------------------ repeated requests

  /** The numbers of all requests, and of the accepted ones. */
  function Numbers(events: seq<Event>, acceptedOnly: bool): seq<nat> {
    if events == [] then []
    else
      var before, e := Numbers(events[..|events| - 1], acceptedOnly), events[|events| - 1];
      if e.Accepted? || (e.Repeated? && !acceptedOnly) then before + [e.seqno] else before
  }

  lemma {:induction false} LastNumberIsLast(events: seq<Event>)
    ensures var all := Numbers(events, false);
      LastNumber(events) == if all == [] then 0 else all[|all| - 1]
  {
    if events != [] {
      LastNumberIsLast(events[..|events| - 1]);
    }
  }

  /** The accepted numbers are those of all requests with adjacent nonzero repeats removed. */
  lemma {:induction false} AcceptedAreSqueezed(events: seq<Event>)
    requires forall k | 0 <= k < |events| :: Follows(events[..k], events[k])
    ensures Numbers(events, true) == Squeeze(Numbers(events, false))
  {
    if events != [] {
      var before, e := events[..|events| - 1], events[|events| - 1];
      assert forall k | 0 <= k < |before| :: before[..k] == events[..k];
      AcceptedAreSqueezed(before);
      LastNumberIsLast(before);
      assert Follows(before, e);
      if e.Accepted? || e.Repeated? {
        var all := Numbers(events, false);
        assert all[..|all| - 1] == Numbers(before, false);
      }
    }
  }

  lemma RunsAcceptSqueezed(cr: Crypto, ops: seq<Op>)
    requires ValidCrypto(cr) && Run(cr, ops).Returned?
    ensures var events := Run(cr, ops).value.1; Numbers(events, true) == Squeeze(Numbers(events, false))
  {
    RunRemembers(cr, ops);
    AcceptedAreSqueezed(Run(cr, ops).value.1);
  }
}
