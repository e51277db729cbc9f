/** A request as plugins see it, as a function of the calls they make on it
    (internal/http/request.go), and the meaning of the rewrite reply. */
module RequestModel {
  import opened Basics
  import opened HttpHeader
  import opened Args
  import Header

  /** The HTTPReqCall message APISIX sent; it is never changed. */
  datatype RawReq = RawReq(id: nat, confToken: nat, path: Bytes, headers: Text, args: Text)

  /** The result of one ExtraInfo exchange: common.ErrConnClosed, or bytes that may be nil. */
  datatype Answer = Failed | Got(bytes: Option<Bytes>)

  /** The fields of Request; `None` is nil. */
  datatype Req = Req(
    r: RawReq,
    path: Option<Bytes>,
    hdr: Option<Header.Overlay>,
    args: Option<Values>,
    rawArgs: Values,
    vars: map<string, Option<Bytes>>,
    body: Option<Bytes>,
    respHdr: Option<Values>)

  /** The calls a plugin can make; the peer's answer, if the call asks for one, comes with it. */
  datatype Op =
    | ReadPath
    | SetPath(path: Option<Bytes>)
    | OpenHeader
    | GetHeader(key: string)
    | SetHeader(key: string, value: string)
    | DelHeader(key: string)
    | OpenArgs
    | PutArg(name: string, values: seq<string>)
    | DropArg(name: string)
    | OpenRespHeader
    | PutRespHeader(name: string, values: seq<string>)
    | DropRespHeader(name: string)
    | ReadVar(name: string, answer: Answer)
    | ReadBody(answer: Answer)
    | SetBody(body: Option<Bytes>)

  /** What a call returns to the plugin. */
  datatype Obs =
    | Nothing
    | SawPath(path: Bytes)
    | SawHeader(value: string)
    | SawArgs(args: Values)
    | SawRespHeader(hdr: Values)
    | SawBytes(answer: Answer)

  function PathOf(s: Req): Bytes {
    if s.path.None? then s.r.path else s.path.value
  }

  function WithHeader(s: Req): (t: Req)
    ensures t.hdr.Some?
  {
    if s.hdr.None? then s.(hdr := Some(Header.Fresh(s.r.headers))) else s
  }

  function WithArgs(s: Req): (t: Req)
    ensures t.args.Some?
  {
    if s.args.Some? then s
    else
      var args := ParseArgs(s.r.args);
      s.(args := Some(args), rawArgs := args)
  }

  function WithRespHeader(s: Req): (t: Req)
    ensures t.respHdr.Some?
  {
    if s.respHdr.None? then s.(respHdr := Some(map[])) else s
  }

  function EditHeader(s: Req, e: Header.Edit): Req {
    var t := WithHeader(s);
    t.(hdr := Some(Header.ApplyEdit(t.hdr.value, e)))
  }

  predicate Cached(body: Option<Bytes>) {
    body.Some? && |body.value| > 0
  }

  function Step(s: Req, op: Op): Req {
    match op
    case ReadPath => s
    case SetPath(path) => s.(path := path)
    case OpenHeader => WithHeader(s)
    case GetHeader(_) => WithHeader(s)
    case SetHeader(key, value) => EditHeader(s, Header.SetEdit(key, value))
    case DelHeader(key) => EditHeader(s, Header.DelEdit(key))
    case OpenArgs => WithArgs(s)
    case PutArg(name, values) =>
      var t := WithArgs(s);
      t.(args := Some(t.args.value[name := values]))
    case DropArg(name) =>
      var t := WithArgs(s);
      t.(args := Some(t.args.value - {name}))
    case OpenRespHeader => WithRespHeader(s)
    case PutRespHeader(name, values) =>
      var t := WithRespHeader(s);
      t.(respHdr := Some(t.respHdr.value[name := values]))
    case DropRespHeader(name) =>
      var t := WithRespHeader(s);
      t.(respHdr := Some(t.respHdr.value - {name}))
    case ReadVar(name, answer) =>
      if name in s.vars || answer.Failed? then s else s.(vars := s.vars[name := answer.bytes])
    case ReadBody(answer) =>
      if Cached(s.body) || answer.Failed? then s else s.(body := answer.bytes)
    case SetBody(body) => s.(body := body)
  }

  function Observe(s: Req, op: Op): Obs {
    match op
    case ReadPath => SawPath(PathOf(s))
    case GetHeader(key) => SawHeader(Header.Seen(WithHeader(s).hdr.value, Canon(key)))
    case OpenArgs => SawArgs(WithArgs(s).args.value)
    case OpenRespHeader => SawRespHeader(WithRespHeader(s).respHdr.value)
    case ReadVar(name, answer) => SawBytes(if name in s.vars then Got(s.vars[name]) else answer)
    case ReadBody(answer) => SawBytes(if Cached(s.body) then Got(s.body) else answer)
    case _ => Nothing
  }

  function Run(s: Req, ops: seq<Op>): Req {
    if ops == [] then s else Step(Run(s, ops[..|ops| - 1]), ops[|ops| - 1])
  }

  function Observations(s: Req, ops: seq<Op>): seq<Obs> {
    if ops == [] then []
    else
      var init := ops[..|ops| - 1];
      Observations(s, init) + [Observe(Run(s, init), ops[|ops| - 1])]
  }

  // ---- object reuse ----

  /** Reset: `rawArgs` and `r` are kept. */
  function Reset(s: Req): Req {
    Req(s.r, None, None, None, s.rawArgs, map[], None, None)
  }

  /** CreateRequest on an object from the pool. */
  function Create(pooled: Req, raw: RawReq): Req {
    pooled.(r := raw)
  }

  /** A request made new. */
  function New(raw: RawReq): Req {
    Req(raw, None, None, None, map[], map[], None, None)
  }

  // ---- the reply ----

  datatype Rewrite = Rewrite(
    path: Option<Bytes>,
    body: Option<Bytes>,
    headers: Option<seq<Entry>>,
    respHeaders: Option<seq<Entry>>,
    args: Option<seq<Entry>>)

  predicate HasChanges(s: Req) {
    s.path.Some? || s.hdr.Some? || s.args.Some? || s.respHdr.Some? || s.body.Some?
  }

  /** All values of a header map, in some iteration order of its names. */
  ghost predicate IsListing(m: Values, entries: seq<Entry>) {
    exists ns :: Enumerates(ns, m.Keys) && entries == Blocks(m, ns)
  }

  /** The replies FetchChanges may give. */
  ghost predicate IsReply(s: Req, reply: Option<Rewrite>) {
    if !HasChanges(s) then reply.None?
    else
      && reply.Some?
      && var rw := reply.value;
         && rw.path == s.path
         && rw.body == s.body
         && (rw.headers.Some? <==> s.hdr.Some?)
         && (rw.headers.Some? ==> Header.IsDiff(s.hdr.value, rw.headers.value))
         && (rw.respHeaders.Some? <==> s.respHdr.Some?)
         && (rw.respHeaders.Some? ==> IsListing(s.respHdr.value, rw.respHeaders.value))
         && (rw.args.Some? <==> s.args.Some?)
         && (rw.args.Some? ==> IsArgsDiff(s.rawArgs, s.args.value, rw.args.value))
  }

  /** The request at APISIX. */
  datatype Message = Message(path: Bytes, headers: Values, args: Values, body: Bytes)

  function Arrived(raw: RawReq, body: Bytes): Message {
    Message(raw.path, Parse(raw.headers), ParseArgs(raw.args), body)
  }

  /** APISIX applies a reply: what is absent stays. */
  function Apply(m: Message, reply: Option<Rewrite>): Message {
    if reply.None? then m
    else
      var rw := reply.value;
      Message(
        if rw.path.Some? then rw.path.value else m.path,
        if rw.headers.Some? then Header.Receive(m.headers, rw.headers.value) else m.headers,
        if rw.args.Some? then ReceiveArgs(m.args, rw.args.value) else m.args,
        if rw.body.Some? then rw.body.value else m.body)
  }

  // ---- the history of a run, independent of the overlay ----

  function EditOf(op: Op): seq<Header.Edit> {
    match op
    case SetHeader(key, value) => [Header.SetEdit(key, value)]
    case DelHeader(key) => [Header.DelEdit(key)]
    case _ => []
  }

  /** The header edits among the calls. */
  function EditsOf(ops: seq<Op>): seq<Header.Edit> {
    if ops == [] then [] else EditsOf(ops[..|ops| - 1]) + EditOf(ops[|ops| - 1])
  }

  /** The path last set; `SetPath(nil)` asks for the original again. */
  function IntendedPath(raw: RawReq, ops: seq<Op>): Bytes {
    if ops == [] then raw.path
    else
      match ops[|ops| - 1]
      case SetPath(path) => if path.None? then raw.path else path.value
      case _ => IntendedPath(raw, ops[..|ops| - 1])
  }

  /** The original arguments with all changes made to them. */
  function IntendedArgs(raw: RawReq, ops: seq<Op>): Values {
    if ops == [] then ParseArgs(raw.args)
    else
      var before := IntendedArgs(raw, ops[..|ops| - 1]);
      match ops[|ops| - 1]
      case PutArg(name, values) => before[name := values]
      case DropArg(name) => before - {name}
      case _ => before
  }

  /** The response headers given along with the request, if any were. */
  function IntendedRespHeader(ops: seq<Op>): Option<Values> {
    if ops == [] then None
    else
      var before := IntendedRespHeader(ops[..|ops| - 1]);
      var map' := if before.None? then map[] else before.value;
      match ops[|ops| - 1]
      case OpenRespHeader => Some(map')
      case PutRespHeader(name, values) => Some(map'[name := values])
      case DropRespHeader(name) => Some(map' - {name})
      case _ => before
  }

  predicate ReadsOnly(op: Op) {
    op.ReadPath? || op.OpenHeader? || op.GetHeader? || op.OpenArgs? || op.ReadVar? || op.ReadBody?
  }

  /** The last body a plugin set; `SetBody(nil)` asks for the original again. */
  function LastSetBody(ops: seq<Op>): Option<Bytes> {
    if ops == [] then None
    else if ops[|ops| - 1].SetBody? then ops[|ops| - 1].body
    else LastSetBody(ops[..|ops| - 1])
  }

  /** A body was read from the peer after that. */
  predicate ReadBack(ops: seq<Op>) {
    ops != [] &&
    var op := ops[|ops| - 1];
    !op.SetBody? && ((op.ReadBody? && op.answer.Got?) || ReadBack(ops[..|ops| - 1]))
  }

  /** The first nonempty body read from the peer after the last SetBody. */
  function FirstRead(ops: seq<Op>): Option<Bytes> {
    if ops == [] then None
    else
      var before, op := FirstRead(ops[..|ops| - 1]), ops[|ops| - 1];
      if op.SetBody? then None
      else if before.None? && op.ReadBody? && op.answer.Got? && Cached(op.answer.bytes) then op.answer.bytes
      else before
  }

  /** The last body set or read, also an empty one or nil. */
  function LastGiven(ops: seq<Op>): Option<Bytes> {
    if ops == [] then None
    else
      var op := ops[|ops| - 1];
      if op.SetBody? then op.body
      else if op.ReadBody? && op.answer.Got? then op.answer.bytes
      else LastGiven(ops[..|ops| - 1])
  }

  /** The body a plugin will be shown without asking the peer: a nonempty one that was set, or else
      the first nonempty one read since. */
  function KnownBody(ops: seq<Op>): Option<Bytes> {
    if Cached(LastSetBody(ops)) then LastSetBody(ops) else FirstRead(ops)
  }

  function LastSetPath(ops: seq<Op>): Option<Bytes> {
    if ops == [] then None
    else if ops[|ops| - 1].SetPath? then ops[|ops| - 1].path
    else LastSetPath(ops[..|ops| - 1])
  }

  /** A call that makes the header overlay, the arguments or the response headers. */
  predicate Opens(op: Op) {
    || op.OpenHeader? || op.GetHeader? || op.SetHeader? || op.DelHeader?
    || op.OpenArgs? || op.PutArg? || op.DropArg?
    || op.OpenRespHeader? || op.PutRespHeader? || op.DropRespHeader?
  }

  /** The calls cause a rewrite reply. */
  predicate Touched(ops: seq<Op>) {
    || LastSetPath(ops).Some?
    || (exists op :: op in ops && Opens(op))
    || KnownBody(ops).Some? || LastGiven(ops).Some?
  }

  function BytesOf(b: Option<Bytes>): Bytes {
    if b.None? then [] else b.value
  }

  /** The peer answers a request for the body with the body. */
  predicate Truthful(ops: seq<Op>, body: Bytes) {
    forall op :: op in ops && op.ReadBody? && op.answer.Got? ==> BytesOf(op.answer.bytes) == body
  }

  /** The answer of the first successful exchange for a variable. */
  function FirstGot(ops: seq<Op>, name: string): Option<Option<Bytes>> {
    if ops == [] then None
    else
      var before, op := FirstGot(ops[..|ops| - 1], name), ops[|ops| - 1];
      if before.None? && op.ReadVar? && op.name == name && op.answer.Got? then Some(op.answer.bytes) else before
  }

  /** How many exchanges for a variable succeeded. */
  function Exchanges(s: Req, ops: seq<Op>, name: string): nat {
    if ops == [] then 0
    else
      var init, op := ops[..|ops| - 1], ops[|ops| - 1];
      Exchanges(s, init, name) +
      if op.ReadVar? && op.name == name && op.answer.Got? && name !in Run(s, init).vars then 1 else 0
  }
}
