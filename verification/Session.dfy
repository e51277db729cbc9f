/** What one connection does, as a function of the bytes the peer sends: the sequence of
    frames read and written, independent of how reads and writes are split. */
module Session {
  import opened Basics
  import opened Frames

  /** The result of one ExtraInfo exchange: `Closed` is common.ErrConnClosed. */
  datatype Answer = Closed | Got(buf: Bytes)

  datatype Failure = TokenNotFound | OtherFailure

  datatype Outcome = Finished(out: Bytes) | Failed(err: Failure)

  /** The codes of ReportError. */
  datatype Code = BadRequest | ServiceUnavailable | ConfTokenNotFound

  /** An arbitrary RPC handler: given the call and the answers so far it asks again or stops.
      `patience` is how often it goes on asking a peer that is gone. */
  datatype Handlers = Handlers(
    ask: (Frame, seq<Answer>) -> Option<Bytes>,
    patience: (Frame, seq<Answer>) -> nat,
    finish: (Frame, seq<Answer>) -> Outcome,
    report: Code -> Bytes)

  /** Handlers that give up on a vanished peer after finitely many exchanges; as long as the
      peer answers, a handler may ask without bound. */
  type Handler = h: Handlers | Terminates(h)
    witness Handlers((_, _) => None, (_, _) => 0, (_, _) => Failed(OtherFailure), _ => [])

  ghost predicate Terminates(h: Handlers) {
    forall f, answers ::
      h.ask(f, answers).Some? ==> h.patience(f, answers + [Closed]) < h.patience(f, answers)
  }

  /** What serves a connection: the handler of its k-th call for every k. Over all families this
      is every handler with state, such as the token counter: what it remembers by the k-th call
      is part of its k-th member. */
  type Service = nat -> Handler

  datatype Event =
    | Dispatch(f: Frame) // a call read from the stream and dispatched
    | AskOut(f: Frame) // an ExtraInfo request written
    | AnswerIn(f: Frame) // the peer's answer read
    | ReplyOut(f: Frame) // the reply to the call written

  /** typeHandlerMap's keys. */
  predicate KnownType(ty: Byte) {
    ty == RPC_PREPARE_CONF || ty == RPC_HTTP_REQ_CALL || ty == RPC_HTTP_RESP_CALL
  }

  function ErrorCode(err: Failure): Code {
    if err == TokenNotFound then ConfTokenNotFound else ServiceUnavailable
  }

  /** dispatchRPC and checkIfDataTooLarge, once the handler is done. */
  function Reply(h: Handler, f: Frame, answers: seq<Answer>): (reply: Frame)
    ensures reply.ty == RPC_ERROR || reply.ty == f.ty
  {
    if !KnownType(f.ty) then Frame(RPC_ERROR, h.report(BadRequest))
    else
      match h.finish(f, answers)
      case Failed(err) => Frame(RPC_ERROR, h.report(ErrorCode(err)))
      case Finished(out) =>
        if |out| < MAX_DATA_SIZE then Frame(f.ty, out)
        else Frame(RPC_ERROR, h.report(ServiceUnavailable))
  }

  datatype Served = Served(events: seq<Event>, answers: seq<Answer>, rest: Bytes)

  /** The peer's side of one exchange: the next complete frame of the stream, or nothing and the
      rest of the stream used up. */
  datatype Taken = Taken(a: Answer, got: seq<Event>, rest: Bytes)

  function Take(input: Bytes): (r: Taken)
    ensures |r.rest| < |input| || (r.a == Closed && r.rest == [])
  {
    match ParseFrame(input)
    case None => Taken(Closed, [], [])
    case Some((g, rest)) => Taken(Got(g.data), [AnswerIn(g)], rest)
  }

  /** The exchanges a handler runs from `answers` on, each taking one frame off the stream. */
  ghost function Serve(h: Handler, f: Frame, answers: seq<Answer>, input: Bytes): (r: Served)
    ensures |r.rest| <= |input|
    decreases |input|, h.patience(f, answers)
  {
    if !KnownType(f.ty) || h.ask(f, answers).None? then Served([], answers, input)
    else
      var ask := AskOut(Frame(RPC_EXTRA_INFO, h.ask(f, answers).value));
      var x := Take(input);
      var r := Serve(h, f, answers + [x.a], x.rest);
      r.(events := [ask] + (x.got + r.events))
  }

  /** The events of one call after it was read: the handler's exchanges, then the reply. */
  ghost function CallEvents(h: Handler, f: Frame, rest: Bytes): seq<Event> {
    var s := Serve(h, f, [], rest);
    s.events + [ReplyOut(Reply(h, f, s.answers))]
  }

  /** The whole connection from its k-th call on, up to the peer's end of file. */
  ghost function Trace(hs: Service, k: nat, input: Bytes): seq<Event>
    decreases |input|
  {
    match ParseFrame(input)
    case None => []
    case Some((f, rest)) =>
      [Dispatch(f)] + (CallEvents(hs(k), f, rest) + Trace(hs, k + 1, Serve(hs(k), f, [], rest).rest))
  }

  function Incoming(t: seq<Event>): seq<Frame> {
    if t == [] then []
    else (if t[0].Dispatch? || t[0].AnswerIn? then [t[0].f] else []) + Incoming(t[1..])
  }

  function Outgoing(t: seq<Event>): seq<Frame> {
    if t == [] then []
    else (if t[0].AskOut? || t[0].ReplyOut? then [t[0].f] else []) + Outgoing(t[1..])
  }

  function OutBytes(t: seq<Event>): Bytes {
    EncodeAll(Outgoing(t))
  }

  lemma {:induction false} IncomingAppend(s: seq<Event>, t: seq<Event>)
    ensures Incoming(s + t) == Incoming(s) + Incoming(t)
  {
    if s == [] {
      assert s + t == t;
    } else {
      var first := if s[0].Dispatch? || s[0].AnswerIn? then [s[0].f] else [];
      IncomingAppend(s[1..], t);
      assert (s + t)[1..] == s[1..] + t;
      assert first + (Incoming(s[1..]) + Incoming(t)) == first + Incoming(s[1..]) + Incoming(t);
    }
  }

  lemma IncomingCons(e: Event, t: seq<Event>)
    ensures Incoming([e] + t) == (if e.Dispatch? || e.AnswerIn? then [e.f] else []) + Incoming(t)
  {
    assert ([e] + t)[1..] == t;
  }

  lemma {:induction false} OutgoingAppend(s: seq<Event>, t: seq<Event>)
    ensures Outgoing(s + t) == Outgoing(s) + Outgoing(t)
  {
    if s == [] {
      assert s + t == t;
    } else {
      var first := if s[0].AskOut? || s[0].ReplyOut? then [s[0].f] else [];
      OutgoingAppend(s[1..], t);
      assert (s + t)[1..] == s[1..] + t;
      assert first + (Outgoing(s[1..]) + Outgoing(t)) == first + Outgoing(s[1..]) + Outgoing(t);
    }
  }

  lemma OutgoingCons(e: Event, t: seq<Event>)
    ensures Outgoing([e] + t) == (if e.AskOut? || e.ReplyOut? then [e.f] else []) + Outgoing(t)
  {
    assert ([e] + t)[1..] == t;
  }

  lemma OutBytesAppend(s: seq<Event>, t: seq<Event>)
    ensures OutBytes(s + t) == OutBytes(s) + OutBytes(t)
  {
    OutgoingAppend(s, t);
    EncodeAllAppend(Outgoing(s), Outgoing(t));
  }

  lemma TakeIncoming(input: Bytes)
    ensures Incoming(Take(input).got) + AllFrames(Take(input).rest) == AllFrames(input)
  {
    var x := Take(input);
    if ParseFrame(input).Some? {
      assert x.got + [] == x.got;
      IncomingCons(x.got[0], []);
    }
  }

  lemma ExchangeIncoming(ask: Event, got: seq<Event>, more: seq<Event>, left: seq<Frame>, after: seq<Frame>)
    requires ask.AskOut? && Incoming(more) + left == after
    ensures Incoming([ask] + (got + more)) + left == Incoming(got) + after
  {
    IncomingCons(ask, got + more);
    IncomingAppend(got, more);
    assert Incoming(got) + Incoming(more) + left == Incoming(got) + (Incoming(more) + left);
  }

  /** An exchange takes exactly the next complete frame, and all that is left if there is none. */
  lemma {:induction false} ServeConsumes(h: Handler, f: Frame, answers: seq<Answer>, input: Bytes)
    ensures
      var s := Serve(h, f, answers, input);
      Incoming(s.events) + AllFrames(s.rest) == AllFrames(input)
    decreases |input|, h.patience(f, answers)
  {
    if KnownType(f.ty) && h.ask(f, answers).Some? {
      var ask := AskOut(Frame(RPC_EXTRA_INFO, h.ask(f, answers).value));
      var x := Take(input);
      var more := Serve(h, f, answers + [x.a], x.rest);
      ServeConsumes(h, f, answers + [x.a], x.rest);
      TakeIncoming(input);
      ExchangeIncoming(ask, x.got, more.events, AllFrames(more.rest), AllFrames(x.rest));
    }
  }

  lemma IncomingCall(f: Frame, served: seq<Event>, reply: Frame, after: seq<Event>)
    ensures Incoming([Dispatch(f)] + (served + [ReplyOut(reply)] + after)) == [f] + (Incoming(served) + Incoming(after))
  {
    var tail := [ReplyOut(reply)] + after;
    assert served + [ReplyOut(reply)] + after == served + tail;
    IncomingCons(Dispatch(f), served + tail);
    IncomingAppend(served, tail);
    IncomingCons(ReplyOut(reply), after);
  }

  /** For every service: the frames dispatched and the answers consumed are, in order, exactly
      the complete frames of the stream. Nothing is skipped, split, repeated or made up from a
      truncated tail. */
  lemma {:induction false} ExactlyTheCompleteFrames(hs: Service, k: nat, input: Bytes)
    ensures Incoming(Trace(hs, k, input)) == AllFrames(input)
    decreases |input|
  {
    match ParseFrame(input)
    case None =>
    case Some((f, rest)) =>
      var s := Serve(hs(k), f, [], rest);
      ServeConsumes(hs(k), f, [], rest);
      ExactlyTheCompleteFrames(hs, k + 1, s.rest);
      IncomingCall(f, s.events, Reply(hs(k), f, s.answers), Trace(hs, k + 1, s.rest));
  }

  // ---- what each call got ----

  /** A call as its events tell it: the frame, the ExtraInfo requests written and the answers to
      them in order, and the reply. */
  datatype CallRecord = CallRecord(f: Frame, asked: seq<Bytes>, answers: seq<Answer>, reply: Frame)

  /** A call that has not been replied to yet. */
  datatype Pending = Pending(f: Frame, asked: seq<Bytes>, answers: seq<Answer>)

  /** What one event does to the call under way, and the call it completes. */
  function Advance(open: Option<Pending>, e: Event): (Option<Pending>, seq<CallRecord>) {
    if e.Dispatch? then (Some(Pending(e.f, [], [])), [])
    else if open.None? then (None, [])
    else
      var p := open.value;
      var n := |p.answers|;
      if e.AskOut? then (Some(Pending(p.f, p.asked + [e.f.data], p.answers + [Closed])), [])
      else if e.AnswerIn? then
        (Some(p.(answers := (if n == 0 then [] else p.answers[..n - 1]) + [Got(e.f.data)])), [])
      else (None, [CallRecord(p.f, p.asked, p.answers, e.f)])
  }

  /** Reading the calls off a sequence of events. */
  function Calls(open: Option<Pending>, t: seq<Event>): seq<CallRecord>
    decreases |t|
  {
    if t == [] then [] else Advance(open, t[0]).1 + Calls(Advance(open, t[0]).0, t[1..])
  }

  /** The requests are those the handler makes, each on the answers before it. */
  ghost predicate AsksOf(h: Handler, f: Frame, asked: seq<Bytes>, answers: seq<Answer>) {
    && |asked| == |answers|
    && forall j :: 0 <= j < |asked| ==> h.ask(f, answers[..j]) == Some(asked[j])
  }

  /** A handler served the call, in the numbers of the protocol. The types 1, 2 and 4 are known. For
      these the handler made these requests and then no more, and the reply is its bytes under the
      call's own type exactly when it finished with fewer than 2^25 - 1 of them; otherwise the reply
      is of type 0 with the report of the one code that fits. Other types ask nothing. */
  ghost predicate ServedBy(h: Handler, c: CallRecord) {
    var known, done := c.f.ty == 1 || c.f.ty == 2 || c.f.ty == 4, h.finish(c.f, c.answers);
    && AsksOf(h, c.f, c.asked, c.answers)
    && (known ==> h.ask(c.f, c.answers).None?)
    && (!known ==> c.asked == [])
    && (c.reply.ty != 0 <==> known && done.Finished? && |done.out| < 33554431)
    && (c.reply.ty != 0 ==> c.reply == Frame(c.f.ty, done.out))
    && (c.reply.ty == 0 ==>
          c.reply.data == h.report(ReportCode(known, done)))
  }

  /** The code of the report in place of a result. */
  function ReportCode(known: bool, done: Outcome): Code {
    if !known then BadRequest
    else if done == Failed(TokenNotFound) then ConfTokenNotFound
    else ServiceUnavailable
  }

  /** The frames the requests of a call are sent in. */
  function AskFrames(asked: seq<Bytes>): seq<Frame> {
    seq(|asked|, i requires 0 <= i < |asked| => Frame(3, asked[i]))
  }

  /** The frames sent for the calls. */
  function SentFor(cs: seq<CallRecord>): seq<Frame> {
    if cs == [] then [] else AskFrames(cs[0].asked) + [cs[0].reply] + SentFor(cs[1..])
  }

  function FramesOf(cs: seq<CallRecord>): seq<Frame> {
    seq(|cs|, i requires 0 <= i < |cs| => cs[i].f)
  }

  /** The frames dispatched. */
  function Dispatched(t: seq<Event>): seq<Frame> {
    if t == [] then [] else (if t[0].Dispatch? then [t[0].f] else []) + Dispatched(t[1..])
  }

  lemma {:induction false} DispatchedAppend(s: seq<Event>, t: seq<Event>)
    ensures Dispatched(s + t) == Dispatched(s) + Dispatched(t)
  {
    if s == [] {
      assert s + t == t;
    } else {
      var first := if s[0].Dispatch? then [s[0].f] else [];
      DispatchedAppend(s[1..], t);
      assert (s + t)[1..] == s[1..] + t;
      assert first + (Dispatched(s[1..]) + Dispatched(t)) == first + Dispatched(s[1..]) + Dispatched(t);
    }
  }

  lemma DispatchedCons(e: Event, t: seq<Event>)
    ensures Dispatched([e] + t) == (if e.Dispatch? then [e.f] else []) + Dispatched(t)
  {
    assert ([e] + t)[1..] == t;
  }

  lemma RecordCons(c: CallRecord, cs: seq<CallRecord>)
    ensures FramesOf([c] + cs) == [c.f] + FramesOf(cs)
    ensures SentFor([c] + cs) == AskFrames(c.asked) + [c.reply] + SentFor(cs)
  {
    assert ([c] + cs)[1..] == cs;
  }

  lemma {:induction false} ServeDispatches(h: Handler, f: Frame, answers: seq<Answer>, input: Bytes)
    ensures Dispatched(Serve(h, f, answers, input).events) == []
    decreases |input|, h.patience(f, answers)
  {
    if KnownType(f.ty) && h.ask(f, answers).Some? {
      var ask := AskOut(Frame(RPC_EXTRA_INFO, h.ask(f, answers).value));
      var x := Take(input);
      var more := Serve(h, f, answers + [x.a], x.rest).events;
      ServeDispatches(h, f, answers + [x.a], x.rest);
      assert ([ask] + (x.got + more))[1..] == x.got + more;
      DispatchedAppend(x.got, more);
    }
  }

  /** One call dispatches nothing more. */
  lemma CallDispatches(h: Handler, f: Frame, rest: Bytes)
    ensures Dispatched(CallEvents(h, f, rest)) == []
  {
    var s := Serve(h, f, [], rest);
    ServeDispatches(h, f, [], rest);
    DispatchedAppend(s.events, [ReplyOut(Reply(h, f, s.answers))]);
  }

  lemma AsksOfMore(h: Handler, f: Frame, asked: seq<Bytes>, answers: seq<Answer>, info: Bytes, a: Answer)
    requires AsksOf(h, f, asked, answers) && h.ask(f, answers) == Some(info)
    ensures AsksOf(h, f, asked + [info], answers + [a])
  {
    var answers' := answers + [a];
    assert forall j :: 0 <= j < |asked| ==> answers'[..j] == answers[..j];
    assert answers'[..|asked|] == answers;
  }

  /** What is read off a handler's exchanges. */
  lemma {:induction false} ServeRecorded(h: Handler, f: Frame, asked: seq<Bytes>, answers: seq<Answer>, input: Bytes,
                                         after: seq<Event>)
    returns (asked': seq<Bytes>)
    requires KnownType(f.ty) && AsksOf(h, f, asked, answers)
    ensures
      var s := Serve(h, f, answers, input);
      && AsksOf(h, f, asked', s.answers) && h.ask(f, s.answers).None?
      && Calls(Some(Pending(f, asked, answers)), s.events + after) == Calls(Some(Pending(f, asked', s.answers)), after)
      && AskFrames(asked) + Outgoing(s.events) == AskFrames(asked')
    decreases |input|, h.patience(f, answers)
  {
    var s := Serve(h, f, answers, input);
    if h.ask(f, answers).None? {
      asked' := asked;
      assert s.events + after == after;
    } else {
      var info, x := h.ask(f, answers).value, Take(input);
      var more := Serve(h, f, answers + [x.a], x.rest).events;
      AsksOfMore(h, f, asked, answers, info, x.a);
      asked' := ServeRecorded(h, f, asked + [info], answers + [x.a], x.rest, after);
      CallsExchange(f, asked, answers, Frame(RPC_EXTRA_INFO, info), input, more, after);
      ExchangeOutgoing(asked, info, input, more);
    }
  }

  lemma ExchangeOutgoing(asked: seq<Bytes>, info: Bytes, input: Bytes, more: seq<Event>)
    ensures AskFrames(asked) + Outgoing([AskOut(Frame(RPC_EXTRA_INFO, info))] + (Take(input).got + more))
            == AskFrames(asked + [info]) + Outgoing(more)
  {
    var ask, got := AskOut(Frame(RPC_EXTRA_INFO, info)), Take(input).got;
    assert ([ask] + (got + more))[1..] == got + more;
    if got == [] {
      assert got + more == more;
    } else {
      assert (got + more)[1..] == more;
    }
    assert AskFrames(asked + [info]) == AskFrames(asked) + [ask.f];
  }

  lemma CallsCons(open: Option<Pending>, e: Event, t: seq<Event>)
    ensures Calls(open, [e] + t) == Advance(open, e).1 + Calls(Advance(open, e).0, t)
  {
    assert ([e] + t)[1..] == t;
  }

  lemma CallsExchange(f: Frame, asked: seq<Bytes>, answers: seq<Answer>, ask: Frame, input: Bytes, more: seq<Event>,
                      after: seq<Event>)
    ensures Calls(Some(Pending(f, asked, answers)), [AskOut(ask)] + (Take(input).got + more) + after)
            == Calls(Some(Pending(f, asked + [ask.data], answers + [Take(input).a])), more + after)
  {
    var x, t := Take(input), more + after;
    assert [AskOut(ask)] + (x.got + more) + after == [AskOut(ask)] + (x.got + t);
    CallsCons(Some(Pending(f, asked, answers)), AskOut(ask), x.got + t);
    if x.got == [] {
      assert x.got + t == t;
    } else {
      CallsCons(Some(Pending(f, asked + [ask.data], answers + [Closed])), x.got[0], t);
      assert (answers + [Closed])[..|answers|] == answers;
    }
  }

  lemma CallRecorded(h: Handler, f: Frame, rest: Bytes, after: seq<Event>) returns (c: CallRecord)
    ensures c.f == f && ServedBy(h, c)
    ensures Outgoing(CallEvents(h, f, rest)) == AskFrames(c.asked) + [c.reply]
    ensures Calls(None, [Dispatch(f)] + (CallEvents(h, f, rest) + after)) == [c] + Calls(None, after)
  {
    var s := Serve(h, f, [], rest);
    var reply := Reply(h, f, s.answers);
    var asked := CallAsked(h, f, rest, [ReplyOut(reply)] + after);
    c := CallRecord(f, asked, s.answers, reply);
    ReplyServed(h, f, asked, s.answers);
    CallsWhole(c, s.events, after);
    OutgoingAppend(s.events, [ReplyOut(reply)]);
    OutgoingCons(ReplyOut(reply), []);
  }

  /** The requests of a whole call; there are none if its type is unknown. */
  lemma CallAsked(h: Handler, f: Frame, rest: Bytes, tail: seq<Event>) returns (asked: seq<Bytes>)
    ensures
      var s := Serve(h, f, [], rest);
      && AsksOf(h, f, asked, s.answers)
      && (KnownType(f.ty) ==> h.ask(f, s.answers).None?)
      && (!KnownType(f.ty) ==> asked == [])
      && Calls(Some(Pending(f, [], [])), s.events + tail) == Calls(Some(Pending(f, asked, s.answers)), tail)
      && Outgoing(s.events) == AskFrames(asked)
  {
    asked := [];
    assert AskFrames([]) == [];
    if KnownType(f.ty) {
      asked := ServeRecorded(h, f, [], [], rest, tail);
    } else {
      assert Serve(h, f, [], rest).events + tail == tail;
    }
  }

  lemma ReplyServed(h: Handler, f: Frame, asked: seq<Bytes>, answers: seq<Answer>)
    requires AsksOf(h, f, asked, answers)
    requires if KnownType(f.ty) then h.ask(f, answers).None? else asked == []
    ensures ServedBy(h, CallRecord(f, asked, answers, Reply(h, f, answers)))
  {
  }

  lemma CallsWhole(c: CallRecord, served: seq<Event>, after: seq<Event>)
    requires
      var tail := [ReplyOut(c.reply)] + after;
      Calls(Some(Pending(c.f, [], [])), served + tail) == Calls(Some(Pending(c.f, c.asked, c.answers)), tail)
    ensures Calls(None, [Dispatch(c.f)] + (served + [ReplyOut(c.reply)] + after)) == [c] + Calls(None, after)
  {
    var tail := [ReplyOut(c.reply)] + after;
    assert served + [ReplyOut(c.reply)] + after == served + tail;
    CallsCons(None, Dispatch(c.f), served + tail);
    CallsCons(Some(Pending(c.f, c.asked, c.answers)), ReplyOut(c.reply), after);
  }

  ghost predicate AllServed(hs: Service, k: nat, cs: seq<CallRecord>)
    decreases |cs|
  {
    cs == [] || (ServedBy(hs(k), cs[0]) && AllServed(hs, k + 1, cs[1..]))
  }

  lemma {:induction false} AllServedAt(hs: Service, k: nat, cs: seq<CallRecord>, i: nat)
    requires AllServed(hs, k, cs) && i < |cs|
    ensures ServedBy(hs(k + i), cs[i])
    decreases i
  {
    if i > 0 {
      AllServedAt(hs, k + 1, cs[1..], i - 1);
    }
  }

  lemma {:induction false} TraceServed(hs: Service, k: nat, input: Bytes)
    ensures
      var t := Trace(hs, k, input);
      var cs := Calls(None, t);
      AllServed(hs, k, cs) && Dispatched(t) == FramesOf(cs) && Outgoing(t) == SentFor(cs)
    decreases |input|
  {
    match ParseFrame(input)
    case None =>
    case Some((f, rest)) =>
      var after := Trace(hs, k + 1, Serve(hs(k), f, [], rest).rest);
      var c := CallRecorded(hs(k), f, rest, after);
      TraceServed(hs, k + 1, Serve(hs(k), f, [], rest).rest);
      assert ([c] + Calls(None, after))[1..] == Calls(None, after);
      CallSent(hs(k), f, rest, after, c);
  }

  lemma CallDispatched(h: Handler, f: Frame, rest: Bytes, after: seq<Event>)
    ensures Dispatched([Dispatch(f)] + (CallEvents(h, f, rest) + after)) == [f] + Dispatched(after)
  {
    var call := CallEvents(h, f, rest);
    DispatchedCons(Dispatch(f), call + after);
    CallDispatches(h, f, rest);
    DispatchedAppend(call, after);
  }

  lemma CallOutgoing(f: Frame, call: seq<Event>, after: seq<Event>)
    ensures Outgoing([Dispatch(f)] + (call + after)) == Outgoing(call) + Outgoing(after)
  {
    OutgoingCons(Dispatch(f), call + after);
    OutgoingAppend(call, after);
  }

  /** What one more call adds to the frames dispatched and sent. */
  lemma CallSent(h: Handler, f: Frame, rest: Bytes, after: seq<Event>, c: CallRecord)
    requires c.f == f && Outgoing(CallEvents(h, f, rest)) == AskFrames(c.asked) + [c.reply]
    requires Dispatched(after) == FramesOf(Calls(None, after)) && Outgoing(after) == SentFor(Calls(None, after))
    ensures
      var t, cs := [Dispatch(f)] + (CallEvents(h, f, rest) + after), [c] + Calls(None, after);
      Dispatched(t) == FramesOf(cs) && Outgoing(t) == SentFor(cs)
  {
    CallDispatched(h, f, rest, after);
    CallOutgoing(f, CallEvents(h, f, rest), after);
    RecordCons(c, Calls(None, after));
  }

  /** Every call of every connection is served by its own handler: there is one record for each
      frame dispatched, in order, the i-th has the requests, the answers and the reply of the
      service's i-th handler, and all that was sent is the requests and replies of these calls. */
  lemma EachCallServed(hs: Service, input: Bytes, i: nat)
    ensures
      var t := Trace(hs, 0, input);
      var cs := Calls(None, t);
      && Dispatched(t) == FramesOf(cs)
      && Outgoing(t) == SentFor(cs)
      && (i < |cs| ==> ServedBy(hs(i), cs[i]))
  {
    TraceServed(hs, 0, input);
    if i < |Calls(None, Trace(hs, 0, input))| {
      AllServedAt(hs, 0, Calls(None, Trace(hs, 0, input)), i);
    }
  }

  /** The token counter's situation: one frame twice, two different replies. */
  lemma StatefulServiceCovered(hs: Service, f: Frame)
    requires f.ty == RPC_PREPARE_CONF && |f.data| < LENGTH_FIELD
    requires forall k ::
               hs(k).ask(f, []).None? && hs(k).finish(f, []).Finished? && |hs(k).finish(f, []).out| < MAX_DATA_SIZE
    ensures Trace(hs, 0, EncodeFrame(f) + EncodeFrame(f))
            == [Dispatch(f), ReplyOut(Frame(f.ty, hs(0).finish(f, []).out)),
                Dispatch(f), ReplyOut(Frame(f.ty, hs(1).finish(f, []).out))]
  {
    ParseWritten(f, EncodeFrame(f));
    ParseWritten(f, []);
    assert EncodeFrame(f) + [] == EncodeFrame(f);
    assert Trace(hs, 2, []) == [];
    assert CallEvents(hs(1), f, []) == [ReplyOut(Frame(f.ty, hs(1).finish(f, []).out))];
    assert Trace(hs, 1, EncodeFrame(f)) == [Dispatch(f), ReplyOut(Frame(f.ty, hs(1).finish(f, []).out))];
    assert CallEvents(hs(0), f, EncodeFrame(f)) == [ReplyOut(Frame(f.ty, hs(0).finish(f, []).out))];
  }

  /** The protocol as an automaton. `open` turns false once an ExtraInfo request went
      unanswered: the peer is gone and nothing more may be read. */
  datatype Phase =
    | Idle(open: bool)
    | Busy(ty: Byte, open: bool)
    | Waiting(ty: Byte, open: bool)

  function NextPhase(p: Phase, e: Event): Option<Phase> {
    match (p, e)
    case (Idle(true), Dispatch(f)) => Some(Busy(f.ty, true))
    case (Busy(ty, open), AskOut(f)) =>
      if KnownType(ty) && f.ty == RPC_EXTRA_INFO then Some(Waiting(ty, open)) else None
    case (Waiting(ty, true), AnswerIn(f)) => Some(Busy(ty, true))
    case (Waiting(ty, open), AskOut(f)) =>
      if f.ty == RPC_EXTRA_INFO then Some(Waiting(ty, false)) else None
    case (Busy(ty, open), ReplyOut(f)) =>
      if f.ty == RPC_ERROR || f.ty == ty then Some(Idle(open)) else None
    case (Waiting(ty, open), ReplyOut(f)) =>
      if f.ty == RPC_ERROR || f.ty == ty then Some(Idle(false)) else None
    case _ => None
  }

  function Phases(p: Phase, t: seq<Event>): Option<Phase>
    decreases |t|
  {
    if t == [] then Some(p)
    else
      match NextPhase(p, t[0])
      case None => None
      case Some(q) => Phases(q, t[1..])
  }

  lemma PhasesAppend(p: Phase, s: seq<Event>, t: seq<Event>)
    ensures Phases(p, s + t) == if Phases(p, s).None? then None else Phases(Phases(p, s).value, t)
    decreases |s|
  {
    if s == [] {
      assert s + t == t;
    } else {
      assert (s + t)[1..] == s[1..] + t;
      var q := NextPhase(p, s[0]);
      if q.Some? {
        PhasesAppend(q.value, s[1..], t);
      }
    }
  }

  lemma PhasesCons(p: Phase, e: Event, t: seq<Event>)
    ensures Phases(p, [e] + t) == if NextPhase(p, e).None? then None else Phases(NextPhase(p, e).value, t)
  {
    assert ([e] + t)[1..] == t;
  }

  /** Serving keeps to the protocol: it ends inside the same call, and whenever the last
      request went unanswered the stream is used up. */
  lemma {:induction false} ServePhases(h: Handler, f: Frame, answers: seq<Answer>, input: Bytes, p: Phase)
    requires KnownType(f.ty)
    requires p == Busy(f.ty, true) || (!p.Idle? && p.ty == f.ty && input == [])
    ensures
      var s := Serve(h, f, answers, input);
      var q := Phases(p, s.events);
      q.Some? && !q.value.Idle? && q.value.ty == f.ty
      && (q.value == Busy(f.ty, true) || s.rest == [])
    decreases |input|, h.patience(f, answers)
  {
    if h.ask(f, answers).Some? {
      var ask := AskOut(Frame(RPC_EXTRA_INFO, h.ask(f, answers).value));
      var x := Take(input);
      var more := Serve(h, f, answers + [x.a], x.rest).events;
      var p' := Waiting(f.ty, p.Busy? && p.open);
      assert NextPhase(p, ask) == Some(p');
      PhasesCons(p, ask, x.got + more);
      if x.got == [] {
        assert x.got + more == more;
        ServePhases(h, f, answers + [x.a], x.rest, p');
      } else {
        PhasesCons(p', x.got[0], more);
        ServePhases(h, f, answers + [x.a], x.rest, Busy(f.ty, true));
      }
    }
  }

  /** Every connection keeps to the protocol: each dispatched call is answered by one reply, of
      its own type or the error type, before the next call is read; each answer follows its own
      ExtraInfo request; nothing is read from a peer that is gone. */
  lemma {:induction false} KeepsProtocol(hs: Service, k: nat, input: Bytes)
    ensures Phases(Idle(true), Trace(hs, k, input)).Some?
    ensures Phases(Idle(true), Trace(hs, k, input)).value.Idle?
    decreases |input|
  {
    match ParseFrame(input)
    case None =>
    case Some((f, rest)) =>
      var h := hs(k);
      var s := Serve(h, f, [], rest);
      var after := Trace(hs, k + 1, s.rest);
      var q := CallPhases(h, f, rest, after);
      if q == Idle(true) {
        KeepsProtocol(hs, k + 1, s.rest);
      } else {
        assert after == [];
      }
  }

  /** One whole call takes the connection from idle to idle. */
  lemma CallPhases(h: Handler, f: Frame, rest: Bytes, after: seq<Event>) returns (q: Phase)
    ensures q.Idle? && (q == Idle(true) || Serve(h, f, [], rest).rest == [])
    ensures Phases(Idle(true), [Dispatch(f)] + (CallEvents(h, f, rest) + after)) == Phases(q, after)
  {
    var s := Serve(h, f, [], rest);
    var reply := ReplyOut(Reply(h, f, s.answers));
    var busy := Busy(f.ty, true);
    if KnownType(f.ty) {
      ServePhases(h, f, [], rest, busy);
    }
    var p := Phases(busy, s.events).value;
    q := NextPhase(p, reply).value;
    PhasesCons(Idle(true), Dispatch(f), CallEvents(h, f, rest) + after);
    assert CallEvents(h, f, rest) + after == s.events + ([reply] + after);
    PhasesAppend(busy, s.events, [reply] + after);
    PhasesCons(p, reply, after);
  }

  /** Every request the handler made in the call is below 2^24 bytes, and so is its result, unless
      the size check replaces it, or else the report. */
  ghost predicate FitsLength(h: Handler, c: CallRecord) {
    var known, done := KnownType(c.f.ty), h.finish(c.f, c.answers);
    && (forall j :: 0 <= j < |c.asked| ==> |c.asked[j]| < LENGTH_FIELD)
    && if known && done.Finished? && |done.out| < MAX_DATA_SIZE then |done.out| < LENGTH_FIELD
       else |h.report(ReportCode(known, done))| < LENGTH_FIELD
  }

  ghost predicate AllFit(hs: Service, k: nat, cs: seq<CallRecord>)
    decreases |cs|
  {
    cs == [] || (FitsLength(hs(k), cs[0]) && AllFit(hs, k + 1, cs[1..]))
  }

  lemma {:induction false} AllFitEach(hs: Service, k: nat, cs: seq<CallRecord>)
    ensures AllFit(hs, k, cs) <==> forall i :: 0 <= i < |cs| ==> FitsLength(hs(k + i), cs[i])
    decreases |cs|
  {
    if cs != [] {
      var rest := cs[1..];
      AllFitEach(hs, k + 1, rest);
      assert forall i :: 0 <= i < |rest| ==> rest[i] == cs[i + 1] && hs(k + 1 + i) == hs(k + (i + 1));
      if forall i :: 0 <= i < |cs| ==> FitsLength(hs(k + i), cs[i]) {
        assert FitsLength(hs(k + 0), cs[0]);
      }
      if AllFit(hs, k, cs) {
        forall i | 0 <= i < |cs|
          ensures FitsLength(hs(k + i), cs[i])
        {
          if i > 0 {
            assert FitsLength(hs(k + 1 + (i - 1)), rest[i - 1]);
          }
        }
      }
    }
  }

  ghost predicate Short(fs: seq<Frame>) {
    forall f :: f in fs ==> |f.data| < LENGTH_FIELD
  }

  lemma CallFits(h: Handler, c: CallRecord)
    requires ServedBy(h, c)
    ensures Short(AskFrames(c.asked) + [c.reply]) <==> FitsLength(h, c)
  {
    var sent := AskFrames(c.asked) + [c.reply];
    assert c.reply == sent[|c.asked|];
    assert forall j :: 0 <= j < |c.asked| ==> sent[j].data == c.asked[j];
  }

  lemma {:induction false} SentFits(hs: Service, k: nat, cs: seq<CallRecord>)
    requires AllServed(hs, k, cs)
    ensures Short(SentFor(cs)) <==> AllFit(hs, k, cs)
    decreases |cs|
  {
    if cs != [] {
      CallFits(hs(k), cs[0]);
      SentFits(hs, k + 1, cs[1..]);
    }
  }

  /** The peer reads back exactly the frames sent if and only if every call fits: every request of
      the handlers that ran, and every result that is sent, is below 2^24 bytes. */
  lemma PeerReadsBack(hs: Service, k: nat, input: Bytes)
    ensures
      var t := Trace(hs, k, input);
      var cs := Calls(None, t);
      AllFrames(OutBytes(t)) == Outgoing(t)
      <==> forall i :: 0 <= i < |cs| ==> FitsLength(hs(k + i), cs[i])
  {
    var t := Trace(hs, k, input);
    var cs := Calls(None, t);
    StreamRoundTrip(Outgoing(t), []);
    assert OutBytes(t) + [] == OutBytes(t);
    TraceServed(hs, k, input);
    SentFits(hs, k, cs);
    AllFitEach(hs, k, cs);
  }

  /** The size check does not ensure that: the handler results it lets through and the peer
      then misreads are exactly those from 2^24 to 2^25 - 2 bytes. */
  lemma OversizeReplyAdmitted(h: Handler, f: Frame, answers: seq<Answer>)
    requires KnownType(f.ty) && h.finish(f, answers).Finished?
    ensures
      var out := h.finish(f, answers).out;
      var reply := Reply(h, f, answers);
      reply == Frame(f.ty, out) && AllFrames(EncodeAll([reply])) != [reply]
      <==> 16777216 <= |out| < 33554431
  {
    var reply := Reply(h, f, answers);
    StreamRoundTrip([reply], []);
    assert EncodeAll([reply]) + [] == EncodeAll([reply]);
    assert [reply][0] == reply;
  }
}
