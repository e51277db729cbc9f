/** The upstream's response as plugins see and rewrite it (internal/http/response.go). */
module Response {
  import opened Basics
  import opened HttpHeader
  import opened RequestModel
  import opened ReqResponse
  import Request
  import Header

  /** The HTTPRespCall message; the status is sixteen bits wide. */
  datatype RawResp = RawResp(id: nat, confToken: nat, status: nat, headers: Text)

  /** The fields of Response; `None` is nil. */
  datatype Rsp = Rsp(
    r: RawResp,
    hdr: Option<Header.Overlay>,
    statusCode: int,
    body: Option<Bytes>,
    vars: map<string, Option<Bytes>>,
    originBody: Option<Bytes>)

  datatype RespOp =
    | ReadStatus
    | OpenHeader
    | GetHeader(key: string)
    | EditHeader(edit: Header.Edit)
    | WriteBody(b: Bytes)
    | WriteStatus(code: int)
    | ReadRespVar(name: string, answer: Answer)
    | ReadOrigin(answer: Answer)

  function NewRsp(raw: RawResp): Rsp {
    Rsp(raw, None, 0, None, map[], None)
  }

  function StatusOf(s: Rsp): int {
    if s.statusCode == 0 then s.r.status else s.statusCode
  }

  function Opened(s: Rsp): (t: Rsp)
    ensures t.hdr.Some?
  {
    if s.hdr.None? then s.(hdr := Some(Header.Fresh(s.r.headers))) else s
  }

  function RespStep(s: Rsp, op: RespOp): Rsp {
    match op
    case ReadStatus => s
    case OpenHeader => Opened(s)
    case GetHeader(_) => Opened(s)
    case EditHeader(e) => Opened(s).(hdr := Some(Header.ApplyEdit(Opened(s).hdr.value, e)))
    case WriteBody(b) => s.(body := Some(BytesOf(s.body) + b))
    case WriteStatus(code) => if s.statusCode != 0 then s else s.(statusCode := code)
    case ReadRespVar(name, answer) =>
      if name in s.vars || answer.Failed? then s else s.(vars := s.vars[name := answer.bytes])
    case ReadOrigin(answer) =>
      if Cached(s.originBody) || answer.Failed? then s else s.(originBody := answer.bytes)
  }

  /** What a call returns to the plugin. */
  datatype RespObs = SawNothing | SawStatus(code: int) | SawValue(value: string) | SawAnswer(answer: Answer)

  function RespObserve(s: Rsp, op: RespOp): RespObs {
    match op
    case ReadStatus => SawStatus(StatusOf(s))
    case GetHeader(key) => SawValue(Header.Seen(Opened(s).hdr.value, Canon(key)))
    case ReadRespVar(name, answer) => SawAnswer(if name in s.vars then Got(s.vars[name]) else answer)
    case ReadOrigin(answer) => SawAnswer(if Cached(s.originBody) then Got(s.originBody) else answer)
    case _ => SawNothing
  }

  function RespObservations(s: Rsp, ops: seq<RespOp>): seq<RespObs> {
    if ops == [] then []
    else
      var init := ops[..|ops| - 1];
      RespObservations(s, init) + [RespObserve(RespRun(s, init), ops[|ops| - 1])]
  }

  function RespRun(s: Rsp, ops: seq<RespOp>): Rsp {
    if ops == [] then s else RespStep(RespRun(s, ops[..|ops| - 1]), ops[|ops| - 1])
  }

  predicate RespHasChange(s: Rsp) {
    s.body.Some? || s.hdr.Some? || s.statusCode != 0
  }

  // ---- the history of a run ----

  function WriterView(op: RespOp): seq<WriterOp> {
    match op
    case WriteBody(b) => [Write(b)]
    case WriteStatus(code) => [WriteHeader(code)]
    case _ => []
  }

  /** The writes and statuses among the calls. */
  function WriterOps(ops: seq<RespOp>): seq<WriterOp> {
    if ops == [] then [] else WriterOps(ops[..|ops| - 1]) + WriterView(ops[|ops| - 1])
  }

  function RespEdits(ops: seq<RespOp>): seq<Header.Edit> {
    if ops == [] then []
    else
      RespEdits(ops[..|ops| - 1]) + if ops[|ops| - 1].EditHeader? then [ops[|ops| - 1].edit] else []
  }

  predicate TouchesHeader(op: RespOp) {
    op.OpenHeader? || op.GetHeader? || op.EditHeader?
  }

  predicate UsesHeader(ops: seq<RespOp>) {
    exists op :: op in ops && TouchesHeader(op)
  }

  predicate Writes(ops: seq<RespOp>) {
    exists op :: op in ops && op.WriteBody?
  }

  // ---- the reply ----

  /** `status` 0 is an absent field. */
  datatype RespReply = RespReply(id: nat, status: nat, headers: Option<seq<Entry>>, body: Option<Bytes>)

  ghost predicate IsRespReply(s: Rsp, reply: Option<RespReply>) {
    if !RespHasChange(s) then reply.None?
    else
      && reply.Some?
      && reply.value.id == s.r.id
      && reply.value.status == Uint16(s.statusCode)
      && (reply.value.headers.Some? <==> s.hdr.Some?)
      && (s.hdr.Some? ==> Header.IsDiff(s.hdr.value, reply.value.headers.value))
      && reply.value.body == (if BytesOf(s.body) == [] then None else s.body)
  }

  /** What is sent: the changes, or without any an empty reply with the id. */
  ghost predicate IsSent(s: Rsp, reply: RespReply) {
    if RespHasChange(s) then IsRespReply(s, Some(reply)) else reply == RespReply(s.r.id, 0, None, None)
  }

  datatype RespMessage = RespMessage(status: int, headers: Values, body: Bytes)

  function ApplyResp(m: RespMessage, reply: RespReply): RespMessage {
    RespMessage(
      if reply.status == 0 then m.status else reply.status,
      if reply.headers.None? then m.headers else Header.Receive(m.headers, reply.headers.value),
      if reply.body.None? then m.body else reply.body.value)
  }

  /** What the run asks the body to be: all writes in order, the original if there are none. */
  function IntendedBody(ops: seq<RespOp>, original: Bytes): Bytes {
    if Writes(ops) then Written(WriterOps(ops)) else original
  }

  ghost predicate RespTracks(s: Rsp, raw: RawResp, es: seq<Header.Edit>, ws: seq<WriterOp>) {
    && s.r == raw
    && s.body == WriterRun(NEW_RESP, ws).body
    && s.statusCode == WriterRun(NEW_RESP, ws).code
    && (s.hdr.Some? ==> s.hdr.value == Header.Run(raw.headers, es))
    && (s.hdr.None? ==> es == [])
  }

  lemma RespEditTracks(s: Rsp, raw: RawResp, es: seq<Header.Edit>, ws: seq<WriterOp>, e: Header.Edit)
    requires RespTracks(s, raw, es, ws)
    ensures RespTracks(RespStep(s, EditHeader(e)), raw, es + [e], ws)
  {
    assert (es + [e])[..|es|] == es;
  }

  lemma RespWriteTracks(s: Rsp, raw: RawResp, es: seq<Header.Edit>, ws: seq<WriterOp>, op: RespOp)
    requires RespTracks(s, raw, es, ws) && (op.WriteBody? || op.WriteStatus?)
    ensures RespTracks(RespStep(s, op), raw, es, ws + WriterView(op))
  {
    var w := if op.WriteBody? then Write(op.b) else WriteHeader(op.code);
    assert WriterView(op) == [w];
    WriterSnoc(ws, w);
    WriteAgrees(s, op, WriterRun(NEW_RESP, ws), w);
  }

  /** A write does the same to the two kinds of response. */
  lemma WriteAgrees(s: Rsp, op: RespOp, t: Resp, w: WriterOp)
    requires (op.WriteBody? && w == Write(op.b)) || (op.WriteStatus? && w == WriteHeader(op.code))
    requires s.body == t.body && s.statusCode == t.code
    ensures
      var s', t' := RespStep(s, op), WriterStep(t, w);
      s'.body == t'.body && s'.statusCode == t'.code && s'.r == s.r && s'.hdr == s.hdr
  {
  }

  lemma WriterSnoc(ws: seq<WriterOp>, w: WriterOp)
    ensures WriterRun(NEW_RESP, ws + [w]) == WriterStep(WriterRun(NEW_RESP, ws), w)
  {
    assert (ws + [w])[..|ws|] == ws;
  }

  lemma RespStepTracks(s: Rsp, raw: RawResp, es: seq<Header.Edit>, ws: seq<WriterOp>, op: RespOp)
    requires RespTracks(s, raw, es, ws)
    ensures RespTracks(RespStep(s, op), raw, es + (if op.EditHeader? then [op.edit] else []), ws + WriterView(op))
  {
    assert es + [] == es && ws + [] == ws;
    if op.EditHeader? {
      RespEditTracks(s, raw, es, ws, op.edit);
    } else if op.WriteBody? || op.WriteStatus? {
      RespWriteTracks(s, raw, es, ws, op);
    }
  }

  lemma {:induction false} RespRunTracks(raw: RawResp, ops: seq<RespOp>)
    ensures RespTracks(RespRun(NewRsp(raw), ops), raw, RespEdits(ops), WriterOps(ops))
  {
    if ops != [] {
      var init, op := ops[..|ops| - 1], ops[|ops| - 1];
      RespRunTracks(raw, init);
      RespStepTracks(RespRun(NewRsp(raw), init), raw, RespEdits(init), WriterOps(init), op);
    }
  }

  lemma {:induction false} RespRunTouched(raw: RawResp, ops: seq<RespOp>)
    ensures RespRun(NewRsp(raw), ops).hdr.Some? <==> UsesHeader(ops)
    ensures RespRun(NewRsp(raw), ops).body.Some? <==> Writes(ops)
  {
    if ops != [] {
      var init, op := ops[..|ops| - 1], ops[|ops| - 1];
      RespRunTouched(raw, init);
      assert forall o :: o in ops <==> o in init || o == op;
      assert UsesHeader(ops) <==> UsesHeader(init) || TouchesHeader(op);
      assert Writes(ops) <==> Writes(init) || op.WriteBody?;
    }
  }

  lemma StatusSurvives(code: int, status: nat)
    requires status < 0x1_0000
    ensures (if Uint16(code) == 0 then status else Uint16(code)) == (if code == 0 then status else code)
            <==> 0 <= code < 0x1_0000
  {
  }

  /** The response reply, exactly. For every run of calls, applied to the upstream's response it
      gives the status StatusCode reports if and only if that fits sixteen bits. */
  lemma RespStatusExact(raw: RawResp, ops: seq<RespOp>, m: RespMessage, reply: RespReply)
    requires IsSent(RespRun(NewRsp(raw), ops), reply)
    requires m.status == raw.status < 0x1_0000
    ensures reply.id == raw.id
    ensures
      var code := FirstCode(WriterOps(ops));
      && StatusOf(RespRun(NewRsp(raw), ops)) == (if code == 0 then raw.status else code)
      && ApplyResp(m, reply).status == (if code % 65536 == 0 then raw.status else code % 65536)
      && (ApplyResp(m, reply).status == StatusOf(RespRun(NewRsp(raw), ops)) <==> 0 <= code < 0x1_0000)
  {
    RespRunTracks(raw, ops);
    WriterRunState(WriterOps(ops));
    StatusSurvives(FirstCode(WriterOps(ops)), raw.status);
  }

  /** And it gives the body asked for unless that is an empty one for a nonempty original. */
  lemma RespBodyExact(raw: RawResp, ops: seq<RespOp>, m: RespMessage, reply: RespReply)
    requires IsSent(RespRun(NewRsp(raw), ops), reply)
    ensures ApplyResp(m, reply).body == IntendedBody(ops, m.body)
            <==> !(Writes(ops) && Written(WriterOps(ops)) == [] && m.body != [])
  {
    var s := RespRun(NewRsp(raw), ops);
    RespRunTracks(raw, ops);
    RespRunTouched(raw, ops);
    WriterRunState(WriterOps(ops));
    assert BytesOf(s.body) == Written(WriterOps(ops));
  }

  /** And every header name has the value last asked for unless its deletion was lost, the value
      last seen unless, also, an empty value was hidden. */
  lemma RespHeadersExact(raw: RawResp, ops: seq<RespOp>, m: RespMessage, reply: RespReply, key: string)
    requires IsSent(RespRun(NewRsp(raw), ops), reply)
    requires m.headers == Parse(raw.headers)
    ensures
      var c, es := Canon(key), RespEdits(ops);
      var value := Get(ApplyResp(m, reply).headers, key);
      var seen := Header.Seen(Opened(RespRun(NewRsp(raw), ops)).hdr.value, c);
      var lost, hidden := Header.LostDelete(raw.headers, es, c), Header.HiddenEmpty(raw.headers, es, c);
      && (value == Header.Intended(raw.headers, es, c) <==> !lost)
      && (value == seen <==> !lost && !hidden)
  {
    var s := RespRun(NewRsp(raw), ops);
    RespRunTracks(raw, ops);
    if s.hdr.Some? {
      Header.DiffExact(raw.headers, RespEdits(ops), reply.headers.value, key);
    }
  }

  /** An empty body in place of a nonempty one is not sent. */
  lemma EmptyBodyWitness(raw: RawResp, m: RespMessage, reply: RespReply)
    requires IsSent(RespRun(NewRsp(raw), [WriteBody([])]), reply) && m.body == [1]
    ensures IntendedBody([WriteBody([])], m.body) == [] && ApplyResp(m, reply).body == [1]
  {
    var ops := [WriteBody([])];
    OneEmptyWrite();
    RespRunTracks(raw, ops);
    WriterRunState(WriterOps(ops));
    assert ops[0] in ops;
  }

  lemma OneEmptyWrite()
    ensures Written(WriterOps([WriteBody([])])) == []
  {
    var ops, ws := [WriteBody([])], [Write([])];
    assert ops[..0] == [] && ws[..0] == [];
    assert WriterOps(ops) == [] + ws == ws;
    assert Written(ws) == Written(ws[..0]) + [];
  }

  /** When a plugin ends the response chain: a write, a status, or any use of the headers, even
      one that only reads them. */
  lemma RespChangeExact(raw: RawResp, ops: seq<RespOp>)
    ensures RespHasChange(RespRun(NewRsp(raw), ops))
            <==> UsesHeader(ops) || Writes(ops) || FirstCode(WriterOps(ops)) != 0
  {
    RespRunTracks(raw, ops);
    RespRunTouched(raw, ops);
    WriterRunState(WriterOps(ops));
  }

  // ---- what the plugins see ----

  /** The first nonempty original body read from the peer. */
  function FirstOrigin(ops: seq<RespOp>): Option<Bytes> {
    if ops == [] then None
    else
      var before, op := FirstOrigin(ops[..|ops| - 1]), ops[|ops| - 1];
      if before.None? && op.ReadOrigin? && op.answer.Got? && Cached(op.answer.bytes) then op.answer.bytes else before
  }

  lemma {:induction false} RespRunOrigin(raw: RawResp, ops: seq<RespOp>)
    ensures
      var body, first := RespRun(NewRsp(raw), ops).originBody, FirstOrigin(ops);
      (Cached(body) <==> first.Some?) && (first.Some? ==> body == first)
  {
    if ops != [] {
      RespRunOrigin(raw, ops[..|ops| - 1]);
      RespStepOrigin(RespRun(NewRsp(raw), ops[..|ops| - 1]), ops[|ops| - 1]);
    }
  }

  lemma RespStepOrigin(s: Rsp, op: RespOp)
    ensures RespStep(s, op).originBody ==
              if op.ReadOrigin? && op.answer.Got? && !Cached(s.originBody) then op.answer.bytes else s.originBody
  {
  }

  /** What every call shows, over every run before it: the first status given or the original's,
      each header as last asked for or, if that is hidden, as it arrived, and the first nonempty
      original body read, the peer's answer if there is none. */
  lemma RespObservesExact(raw: RawResp, ops: seq<RespOp>, key: string, answer: Answer)
    ensures
      var s, code, first := RespRun(NewRsp(raw), ops), FirstCode(WriterOps(ops)), FirstOrigin(ops);
      && RespObserve(s, ReadStatus) == SawStatus(if code == 0 then raw.status else code)
      && RespObserve(s, RespOp.GetHeader(key)) == SawValue(Header.Shown(raw.headers, RespEdits(ops), Canon(key)))
      && RespObserve(s, ReadOrigin(answer)) == SawAnswer(if first.Some? then Got(first) else answer)
  {
    RespObservesStatus(raw, ops);
    RespObservesHeader(raw, ops, key);
    RespObservesOrigin(raw, ops, answer);
  }

  lemma RespObservesStatus(raw: RawResp, ops: seq<RespOp>)
    ensures
      var code := FirstCode(WriterOps(ops));
      RespObserve(RespRun(NewRsp(raw), ops), ReadStatus) == SawStatus(if code == 0 then raw.status else code)
  {
    RespRunTracks(raw, ops);
    WriterRunState(WriterOps(ops));
  }

  lemma RespObservesOrigin(raw: RawResp, ops: seq<RespOp>, answer: Answer)
    ensures
      var first := FirstOrigin(ops);
      RespObserve(RespRun(NewRsp(raw), ops), ReadOrigin(answer))
      == SawAnswer(if first.Some? then Got(first) else answer)
  {
    RespRunOrigin(raw, ops);
  }

  lemma RespObservesHeader(raw: RawResp, ops: seq<RespOp>, key: string)
    ensures RespObserve(RespRun(NewRsp(raw), ops), RespOp.GetHeader(key))
            == SawValue(Header.Shown(raw.headers, RespEdits(ops), Canon(key)))
  {
    var s := RespRun(NewRsp(raw), ops);
    RespRunTracks(raw, ops);
    assert Opened(s).hdr.value == Header.Run(raw.headers, RespEdits(ops));
    CanonIdempotent(key);
    Header.SeenExact(raw.headers, RespEdits(ops), Canon(key));
  }

  /** The observations of a run are those of its calls, each after the ones before it. */
  lemma {:induction false} RespObservationsAt(s: Rsp, ops: seq<RespOp>, i: nat)
    requires i < |ops|
    ensures |RespObservations(s, ops)| == |ops|
    ensures RespObservations(s, ops)[i] == RespObserve(RespRun(s, ops[..i]), ops[i])
  {
    var n := |ops| - 1;
    if n > 0 {
      RespObservationsAt(s, ops[..n], if i < n then i else 0);
    }
    if i < n {
      assert ops[..n][..i] == ops[..i];
    }
  }

  // ---- the variable cache ----

  predicate Gets(op: RespOp, name: string) {
    op.ReadRespVar? && op.name == name && op.answer.Got?
  }

  /** The answer of the first successful exchange for a variable. */
  function RespFirstGot(ops: seq<RespOp>, name: string): Option<Option<Bytes>> {
    if ops == [] then None
    else
      var before, op := RespFirstGot(ops[..|ops| - 1], name), ops[|ops| - 1];
      if before.None? && Gets(op, name) then Some(op.answer.bytes) else before
  }

  /** How many exchanges for a variable succeeded. */
  function RespExchanges(s: Rsp, ops: seq<RespOp>, name: string): nat {
    if ops == [] then 0
    else
      var init, op := ops[..|ops| - 1], ops[|ops| - 1];
      RespExchanges(s, init, name) + if Gets(op, name) && name !in RespRun(s, init).vars then 1 else 0
  }

  lemma {:induction false} RespRunVar(raw: RawResp, ops: seq<RespOp>, name: string)
    ensures
      var first, vars := RespFirstGot(ops, name), RespRun(NewRsp(raw), ops).vars;
      && (name in vars <==> first.Some?)
      && (name in vars ==> vars[name] == first.value)
      && RespExchanges(NewRsp(raw), ops, name) == if first.Some? then 1 else 0
  {
    if ops != [] {
      RespRunVar(raw, ops[..|ops| - 1], name);
      RespStepVar(RespRun(NewRsp(raw), ops[..|ops| - 1]), ops[|ops| - 1], name);
    }
  }

  lemma RespStepVar(s: Rsp, op: RespOp, name: string)
    ensures
      var asked, vars := Gets(op, name) && name !in s.vars, RespStep(s, op).vars;
      && (name in vars <==> asked || name in s.vars)
      && (name in vars ==> vars[name] == if asked then op.answer.bytes else s.vars[name])
  {
  }

  /** Over any run, a variable costs at most one successful exchange, and what Var answers next is
      the answer of that exchange, or a new one if there was none. */
  lemma RespVariableCache(raw: RawResp, ops: seq<RespOp>, name: string, answer: Answer)
    ensures
      var first := RespFirstGot(ops, name);
      && RespExchanges(NewRsp(raw), ops, name) == (if first.Some? then 1 else 0)
      && RespObserve(RespRun(NewRsp(raw), ops), ReadRespVar(name, answer))
         == SawAnswer(if first.Some? then Got(first.value) else answer)
  {
    RespRunVar(raw, ops, name);
  }

  class Response {
    var r: RawResp
    var hdr: Header.Header?
    var statusCode: int
    var body: Option<Bytes>
    var vars: map<string, Option<Bytes>>
    var originBody: Option<Bytes>

    ghost function Repr(): set<object>
      reads this
    {
      if hdr == null then {this} else {this, hdr}
    }

    function Model(): Rsp
      reads this, hdr
    {
      Rsp(r, if hdr == null then None else Some(hdr.Model()), statusCode, body, vars, originBody)
    }

    ghost predicate Valid()
      reads this, hdr
    {
      hdr != null ==> hdr.Valid() && hdr.text == r.headers
    }

    constructor (raw: RawResp)
      ensures Valid() && Model() == NewRsp(raw) && fresh(Repr())
    {
      r, hdr, statusCode, body, vars, originBody := raw, null, 0, None, map[], None;
    }

    method StatusCode() returns (code: int)
      ensures code == StatusOf(Model())
    {
      code := if statusCode == 0 then r.status else statusCode;
    }

    method OpenHdr() returns (h: Header.Header)
      requires Valid()
      modifies this`hdr
      ensures Valid() && h == hdr && Model() == RespStep(old(Model()), RespOp.OpenHeader)
      ensures hdr == old(hdr) || fresh(hdr)
    {
      if hdr == null {
        hdr := new Header.Header(r.headers);
      }
      h := hdr;
    }

    method Write(b: Bytes)
      requires Valid()
      modifies this`body
      ensures Valid() && Model() == RespStep(old(Model()), WriteBody(b))
    {
      if body.None? {
        body := Some([]);
      }
      body := Some(body.value + b);
    }

    method WriteHeader(code: int)
      requires Valid()
      modifies this`statusCode
      ensures Valid() && Model() == RespStep(old(Model()), WriteStatus(code))
    {
      if statusCode != 0 {
        return;
      }
      statusCode := code;
    }

    /** Var: a cached name costs nothing, otherwise one exchange, kept if it succeeds. */
    method Var(name: string, answer: Answer) returns (v: Answer, asked: bool)
      requires Valid()
      modifies this`vars
      ensures Valid() && Model() == RespStep(old(Model()), ReadRespVar(name, answer))
      ensures SawAnswer(v) == RespObserve(old(Model()), ReadRespVar(name, answer))
      ensures asked <==> name !in old(vars)
    {
      asked := name !in vars;
      if !asked {
        return Got(vars[name]), asked;
      }
      if answer.Got? {
        vars := vars[name := answer.bytes];
      }
      v := answer;
    }

    method ReadBody(answer: Answer) returns (v: Answer, asked: bool)
      requires Valid()
      modifies this`originBody
      ensures Valid() && Model() == RespStep(old(Model()), ReadOrigin(answer))
      ensures SawAnswer(v) == RespObserve(old(Model()), ReadOrigin(answer))
      ensures asked <==> !Cached(old(originBody))
    {
      if originBody.Some? && |originBody.value| > 0 {
        return Got(originBody), false;
      }
      if answer.Got? {
        originBody := answer.bytes;
      }
      v, asked := answer, true;
    }

    method PerformHeader(op: RespOp) returns (obs: RespObs)
      requires Valid() && TouchesHeader(op)
      modifies Repr()
      ensures Valid() && Model() == RespStep(old(Model()), op) && obs == RespObserve(old(Model()), op)
      ensures fresh(Repr() - old(Repr()))
    {
      obs := SawNothing;
      var h := OpenHdr();
      match op
      case GetHeader(key) =>
        var v := h.Get(key);
        obs := SawValue(v);
      case EditHeader(SetEdit(key, value)) =>
        h.Set(key, value);
      case EditHeader(DelEdit(key)) =>
        h.Del(key);
      case _ =>
    }

    method PerformFields(op: RespOp) returns (obs: RespObs)
      requires Valid() && !TouchesHeader(op)
      modifies this`statusCode, this`body, this`vars, this`originBody
      ensures Valid() && Model() == RespStep(old(Model()), op) && obs == RespObserve(old(Model()), op)
    {
      obs := SawNothing;
      match op
      case WriteBody(b) =>
        Write(b);
      case WriteStatus(code) =>
        WriteHeader(code);
      case ReadRespVar(name, answer) =>
        var v, _ := Var(name, answer);
        obs := SawAnswer(v);
      case ReadOrigin(answer) =>
        var v, _ := ReadBody(answer);
        obs := SawAnswer(v);
      case ReadStatus =>
        var code := StatusCode();
        obs := SawStatus(code);
    }

    /** Any plugin call. */
    method Perform(op: RespOp) returns (obs: RespObs)
      requires Valid()
      modifies Repr()
      ensures Valid() && Model() == RespStep(old(Model()), op) && obs == RespObserve(old(Model()), op)
      ensures fresh(Repr() - old(Repr()))
    {
      if TouchesHeader(op) {
        obs := PerformHeader(op);
      } else {
        obs := PerformFields(op);
      }
    }

    /** A plugin's run: any sequence of calls. */
    method PerformAll(ops: seq<RespOp>) returns (seen: seq<RespObs>)
      requires Valid()
      modifies Repr()
      ensures Valid() && Model() == RespRun(old(Model()), ops)
      ensures seen == RespObservations(old(Model()), ops)
      ensures fresh(Repr() - old(Repr()))
    {
      seen := [];
      for i := 0 to |ops|
        invariant Valid() && Model() == RespRun(old(Model()), ops[..i])
        invariant seen == RespObservations(old(Model()), ops[..i])
        invariant fresh(Repr() - old(Repr()))
      {
        assert ops[..i + 1][..i] == ops[..i];
        var obs := Perform(ops[i]);
        seen := seen + [obs];
      }
      assert ops[..|ops|] == ops;
    }

    method FetchChanges() returns (reply: Option<RespReply>)
      requires Valid()
      ensures IsRespReply(Model(), reply)
    {
      if body.None? && hdr == null && statusCode == 0 {
        return None;
      }
      var headers, out := None, None;
      if hdr != null {
        var es := Header.HeaderBuild(hdr);
        es := Request.BuildVector(es);
        headers := Some(es);
      }
      if body.Some? && |body.value| > 0 {
        out := body;
      }
      var status := if statusCode == 0 then 0 else Uint16(statusCode);
      reply := Some(RespReply(r.id, status, headers, out));
    }

    /** ReuseResponse's Reset: only the message is left. */
    method Reset()
      modifies this
      ensures Valid() && Repr() == {this} && Model() == NewRsp(old(r))
    {
      body, statusCode, hdr, vars, originBody := None, 0, null, map[], None;
    }

    /** CreateResponse on an object taken from the pool: it clears nothing. */
    method Renew(raw: RawResp)
      requires Valid() && hdr == null
      modifies this`r
      ensures Valid() && Repr() == old(Repr()) && Model() == old(Model()).(r := raw)
    {
      r := raw;
    }
  }
}
