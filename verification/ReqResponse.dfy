/** The response a plugin may give instead of the upstream (internal/http/req-response.go). */
module ReqResponse {
  import opened Basics
  import opened HttpHeader
  import opened Args
  import opened RequestModel
  import Request

  /** The fields of ReqResponse; `None` is nil. */
  datatype Resp = Resp(hdr: Option<Values>, body: Option<Bytes>, code: int)

  /** The calls of http.ResponseWriter; PutHeader and DropHeader stand for any write to its map. */
  datatype WriterOp =
    | OpenWriterHeader
    | PutHeader(name: string, values: seq<string>)
    | DropHeader(name: string)
    | Write(b: Bytes)
    | WriteHeader(code: int)

  const NEW_RESP := Resp(None, None, 0)

  function HdrOf(s: Resp): Values {
    if s.hdr.None? then map[] else s.hdr.value
  }

  function WriterStep(s: Resp, op: WriterOp): Resp {
    match op
    case OpenWriterHeader => s.(hdr := Some(HdrOf(s)))
    case PutHeader(name, values) => s.(hdr := Some(HdrOf(s)[name := values]))
    case DropHeader(name) => s.(hdr := Some(HdrOf(s) - {name}))
    case Write(b) => s.(body := Some(BytesOf(s.body) + b))
    case WriteHeader(code) => if s.code != 0 then s else s.(code := code)
  }

  function WriterRun(s: Resp, ops: seq<WriterOp>): Resp {
    if ops == [] then s else WriterStep(WriterRun(s, ops[..|ops| - 1]), ops[|ops| - 1])
  }

  /** A response was begun: the request chain goes no further. */
  predicate HasChange(s: Resp) {
    s.body.Some? || s.code != 0
  }

  // ---- the history of a run ----

  function Written(ops: seq<WriterOp>): Bytes {
    if ops == [] then []
    else Written(ops[..|ops| - 1]) + if ops[|ops| - 1].Write? then ops[|ops| - 1].b else []
  }

  /** The first nonzero code, 0 if there is none. */
  function FirstCode(ops: seq<WriterOp>): int {
    if ops == [] then 0
    else
      var before, op := FirstCode(ops[..|ops| - 1]), ops[|ops| - 1];
      if before == 0 && op.WriteHeader? then op.code else before
  }

  /** The headers given, all changes to them included. */
  function Given(ops: seq<WriterOp>): Values {
    if ops == [] then map[]
    else
      var before := Given(ops[..|ops| - 1]);
      match ops[|ops| - 1]
      case PutHeader(name, values) => before[name := values]
      case DropHeader(name) => before - {name}
      case _ => before
  }

  /** A call that changes what is given under a name. */
  predicate Changes(op: WriterOp, name: string) {
    (op.PutHeader? || op.DropHeader?) && op.name == name
  }

  predicate Responds(op: WriterOp) {
    op.Write? || (op.WriteHeader? && op.code != 0)
  }

  predicate AnyResponds(ops: seq<WriterOp>) {
    exists op :: op in ops && Responds(op)
  }

  // ---- the reply ----

  datatype Stop = Stop(status: nat, headers: Option<seq<Entry>>, body: Option<Bytes>)

  /** uint16(code). */
  function Uint16(code: int): nat {
    code % 0x1_0000
  }

  /** The replies FetchChanges may give. */
  ghost predicate IsStop(s: Resp, reply: Option<Stop>) {
    if !HasChange(s) then reply.None?
    else
      && reply.Some?
      && reply.value.status == (if s.code == 0 then 200 else Uint16(s.code))
      && (reply.value.headers.Some? <==> HdrOf(s) != map[])
      && (reply.value.headers.Some? ==> IsListing(HdrOf(s), reply.value.headers.value))
      && reply.value.body == (if BytesOf(s.body) == [] then None else s.body)
  }

  lemma {:induction false} WriterRunState(ops: seq<WriterOp>)
    ensures
      var s := WriterRun(NEW_RESP, ops);
      && BytesOf(s.body) == Written(ops)
      && s.code == FirstCode(ops)
  {
    if ops != [] {
      WriterRunState(ops[..|ops| - 1]);
    }
  }

  lemma {:induction false} WriterRunGiven(ops: seq<WriterOp>)
    ensures HdrOf(WriterRun(NEW_RESP, ops)) == Given(ops)
  {
    if ops != [] {
      WriterRunGiven(ops[..|ops| - 1]);
    }
  }

  lemma {:induction false} WriterRunChange(ops: seq<WriterOp>)
    ensures HasChange(WriterRun(NEW_RESP, ops)) <==> AnyResponds(ops)
  {
    if ops != [] {
      var init, op := ops[..|ops| - 1], ops[|ops| - 1];
      WriterRunChange(init);
      assert forall o :: o in ops <==> o in init || o == op;
      assert AnyResponds(ops) <==> AnyResponds(init) || Responds(op);
    }
  }

  /** The stop reply, exactly: over any run of calls there is one if and only if something was
      written or a status given; it carries all writes in order, every header given, and the first
      status, 200 without one, and that status survives if and only if it fits sixteen bits. */
  lemma StopExact(ops: seq<WriterOp>, reply: Option<Stop>)
    requires IsStop(WriterRun(NEW_RESP, ops), reply)
    ensures reply.Some? <==> AnyResponds(ops)
    ensures reply.Some? ==>
              && BytesOf(reply.value.body) == Written(ops)
              && (reply.value.headers.Some? <==> Given(ops) != map[])
              && (reply.value.headers.Some? ==> IsListing(Given(ops), reply.value.headers.value))
              && reply.value.status == (if FirstCode(ops) == 0 then 200 else FirstCode(ops) % 65536)
              && (FirstCode(ops) != 0 ==>
                    (reply.value.status == FirstCode(ops) <==> 0 <= FirstCode(ops) < 0x1_0000))
  {
    WriterRunState(ops);
    WriterRunGiven(ops);
    WriterRunChange(ops);
  }

  // ---- headers given before the stop ----

  lemma {:induction false} GivenKept(before: seq<WriterOp>, later: seq<WriterOp>, name: string)
    requires forall op :: op in later ==> !Changes(op, name)
    ensures Field(Given(before + later), name) == Field(Given(before), name)
  {
    if later == [] {
      assert before + later == before;
    } else {
      var init, op := later[..|later| - 1], later[|later| - 1];
      GivenKept(before, init, name);
      assert (before + later)[..|before + later| - 1] == before + init;
      assert op in later;
    }
  }

  lemma {:induction false} BlockHas(name: string, values: seq<string>, v: string)
    requires v in values
    ensures Entry(name, Some(v)) in Block(name, values)
  {
    if v != values[|values| - 1] {
      BlockHas(name, values[..|values| - 1], v);
    }
  }

  lemma {:induction false} BlocksHave(m: Values, ns: seq<string>, name: string, v: string)
    requires forall n :: n in ns ==> n in m
    requires name in ns && v in m[name]
    ensures Entry(name, Some(v)) in Blocks(m, ns)
  {
    if name == ns[|ns| - 1] {
      BlockHas(name, m[name], v);
    } else {
      BlocksHave(m, ns[..|ns| - 1], name, v);
    }
  }

  /** A header given early in a run is in the stop reply, unless it was changed later. */
  lemma EarlierHeadersSurvive(before: seq<WriterOp>, later: seq<WriterOp>, name: string, v: string, reply: Option<Stop>)
    requires name in Given(before) && v in Given(before)[name]
    requires forall op :: op in later ==> !Changes(op, name)
    requires IsStop(WriterRun(NEW_RESP, before + later), reply) && reply.Some?
    ensures reply.value.headers.Some? && Entry(name, Some(v)) in reply.value.headers.value
  {
    GivenKept(before, later, name);
    WriterRunGiven(before + later);
    var m := Given(before + later);
    assert name in m && m[name] == Given(before)[name];
    var ns :| Enumerates(ns, m.Keys) && reply.value.headers.value == Blocks(m, ns);
    BlocksHave(m, ns, name, v);
  }

  class ReqResponse {
    var hdr: Option<Values>
    var body: Option<Bytes>
    var code: int

    constructor ()
      ensures Model() == NEW_RESP
    {
      hdr, body, code := None, None, 0;
    }

    function Model(): Resp
      reads this
    {
      Resp(hdr, body, code)
    }

    method Header() returns (h: Values)
      modifies this`hdr
      ensures hdr == Some(h) && Model() == WriterStep(old(Model()), OpenWriterHeader)
    {
      if hdr.None? {
        hdr := Some(map[]);
      }
      h := hdr.value;
    }

    method Write(b: Bytes)
      modifies this`body
      ensures Model() == WriterStep(old(Model()), WriterOp.Write(b))
    {
      if body.None? {
        body := Some([]);
      }
      body := Some(body.value + b);
    }

    method WriteHeader(statusCode: int)
      modifies this`code
      ensures Model() == WriterStep(old(Model()), WriterOp.WriteHeader(statusCode))
    {
      if code != 0 {
        return;
      }
      code := statusCode;
    }

    /** A plugin's run: any sequence of calls. */
    method PerformAll(ops: seq<WriterOp>)
      modifies this
      ensures Model() == WriterRun(old(Model()), ops)
    {
      for i := 0 to |ops|
        invariant Model() == WriterRun(old(Model()), ops[..i])
      {
        assert ops[..i + 1][..i] == ops[..i];
        match ops[i]
        case OpenWriterHeader =>
          var _ := Header();
        case PutHeader(name, values) =>
          var h := Header();
          hdr := Some(h[name := values]);
        case DropHeader(name) =>
          var h := Header();
          hdr := Some(h - {name});
        case Write(b) =>
          Write(b);
        case WriteHeader(statusCode) =>
          WriteHeader(statusCode);
      }
      assert ops[..|ops|] == ops;
    }

    method Reset()
      modifies this
      ensures Model() == NEW_RESP
    {
      body, code, hdr := None, 0, None;
    }

    method FetchChanges() returns (reply: Option<Stop>)
      ensures IsStop(Model(), reply)
    {
      if body.None? && code == 0 {
        return None;
      }
      var headers, out := None, None;
      if hdr.Some? && |hdr.value| > 0 {
        var es := Request.ListHeader(hdr.value);
        es := Request.BuildVector(es);
        headers := Some(es);
      }
      if body.Some? && |body.value| > 0 {
        out := body;
      }
      var status := if code == 0 then 200 else Uint16(code);
      reply := Some(Stop(status, headers, out));
    }
  }
}
