/** The plugin registry, the two plugin chains and the calls that run them
    (internal/plugin/plugin.go). */
module Plugin {
  import opened Basics
  import opened HttpHeader
  import opened Args
  import opened RequestModel
  import opened ReqResponse
  import opened Response
  import Header
  import Request
  import RequestProofs

  /** A parsed configuration, by a serialized form. */
  type ConfValue = Bytes

  /** What a plugin does in one run: any calls on the request and on the response writer, with the
      peer's answers to them. The two objects share nothing, so their calls commute. */
  datatype Calls = Calls(onReq: seq<Op>, onResp: seq<WriterOp>)

  /** A plugin's filters as functions of their place in the chain and of all they are shown. The
      place lets two runs on the same sight go differently, as answers of the peer may. */
  datatype PluginOpts = PluginOpts(
    parse: Bytes -> Option<ConfValue>,
    request: (nat, ConfValue, Resp, Req) -> Calls,
    response: (nat, ConfValue, Rsp) -> seq<RespOp>)

  type Registry = map<string, PluginOpts>

  datatype ConfEntry = ConfEntry(name: string, value: ConfValue)

  type RuleConf = seq<ConfEntry>

  datatype RegisterError =
    | MissingName
    | MissingParseConf
    | MissingRequestFilter
    | MissingResponseFilter
    | Registered(name: string)

  class PluginRegistries {
    var opts: Registry

    constructor ()
      ensures opts == map[]
    {
      opts := map[];
    }

    /** RegisterPlugin: the first registration of a complete plugin under a name stands. */
    method RegisterPlugin(name: string, pc: Option<Bytes -> Option<ConfValue>>,
                          sv: Option<(nat, ConfValue, Resp, Req) -> Calls>,
                          rsv: Option<(nat, ConfValue, Rsp) -> seq<RespOp>>)
      returns (err: Option<RegisterError>)
      modifies this
      ensures err.None? <==> name != "" && pc.Some? && sv.Some? && rsv.Some? && name !in old(opts)
      ensures err.None? ==> opts == old(opts)[name := PluginOpts(pc.value, sv.value, rsv.value)]
      ensures err.Some? ==> opts == old(opts)
      ensures err == Some(Registered(name)) <==> name != "" && pc.Some? && sv.Some? && rsv.Some? && name in old(opts)
    {
      if name == "" {
        return Some(MissingName);
      }
      if pc.None? {
        return Some(MissingParseConf);
      }
      if sv.None? {
        return Some(MissingRequestFilter);
      }
      if rsv.None? {
        return Some(MissingResponseFilter);
      }
      if name in opts {
        return Some(Registered(name));
      }
      opts := opts[name := PluginOpts(pc.value, sv.value, rsv.value)];
      err := None;
    }
  }

  // ---- chains in general ----

  /** The entries whose plugin is registered, in configuration order. */
  function Resolvable(reg: Registry, conf: RuleConf): RuleConf {
    if conf == [] then []
    else
      Resolvable(reg, conf[..|conf| - 1]) +
      if conf[|conf| - 1].name in reg then [conf[|conf| - 1]] else []
  }

  /** `es` is what `conf` has at the positions `ix`, which are those of the registered plugins. */
  ghost predicate ResolvesAt(reg: Registry, conf: RuleConf, es: RuleConf, ix: seq<nat>) {
    && Increasing(ix) && |ix| == |es|
    && (forall i: nat :: i in ix <==> i < |conf| && conf[i].name in reg)
    && (forall k :: 0 <= k < |ix| ==> ix[k] < |conf| && es[k] == conf[ix[k]])
  }

  /** The chain leaves out exactly the unregistered plugins and keeps the order. */
  lemma {:induction false} ResolvableExact(reg: Registry, conf: RuleConf) returns (ix: seq<nat>)
    ensures ResolvesAt(reg, conf, Resolvable(reg, conf), ix)
  {
    if conf == [] {
      ix := [];
    } else {
      var n := |conf| - 1;
      var before := ResolvableExact(reg, conf[..n]);
      ix := ResolvesMore(reg, conf, Resolvable(reg, conf[..n]), before);
    }
  }

  lemma ResolvesMore(reg: Registry, conf: RuleConf, es: RuleConf, before: seq<nat>) returns (ix: seq<nat>)
    requires conf != [] && ResolvesAt(reg, conf[..|conf| - 1], es, before)
    ensures
      var e := conf[|conf| - 1];
      ResolvesAt(reg, conf, if e.name in reg then es + [e] else es, ix)
  {
    var n := |conf| - 1;
    assert forall i: nat :: i in before <==> i < n && conf[i].name in reg;
    assert forall k :: 0 <= k < |before| ==> before[k] in before && es[k] == conf[before[k]];
    ix := before;
    if conf[n].name in reg {
      ix := before + [n];
      assert forall i: nat :: i in ix <==> i in before || i == n;
    }
  }

  lemma {:induction false} ResolvablePrefix(reg: Registry, conf: RuleConf, i: nat)
    requires i <= |conf|
    ensures Resolvable(reg, conf[..i]) <= Resolvable(reg, conf)
  {
    if i == |conf| {
      assert conf[..i] == conf;
    } else {
      ResolvablePrefix(reg, conf[..|conf| - 1], i);
      assert conf[..|conf| - 1][..i] == conf[..i];
    }
  }

  /** Running entries one after another, with no early exit. */
  function ExecAll<S>(run: (nat, ConfEntry, S) -> S, es: RuleConf, s: S): S {
    if es == [] then s else run(|es| - 1, es[|es| - 1], ExecAll(run, es[..|es| - 1], s))
  }

  lemma ExecStep<S>(run: (nat, ConfEntry, S) -> S, es: RuleConf, i: nat, s: S)
    requires i < |es|
    ensures ExecAll(run, es[..i + 1], s) == run(i, es[i], ExecAll(run, es[..i], s))
  {
    assert es[..i + 1][..i] == es[..i];
  }

  /** `ran` is what the chain runs of `es`: all entries up to and including the first after which
      `changed` holds. */
  ghost predicate RunsUpToChange<S>(run: (nat, ConfEntry, S) -> S, changed: S -> bool, es: RuleConf, ran: RuleConf,
                                    s: S) {
    && ran <= es
    && (forall j :: 0 < j < |ran| ==> !changed(ExecAll(run, ran[..j], s)))
    && (ran == es || (ran != [] && changed(ExecAll(run, ran, s))))
  }

  /** That determines it: no other choice of entries qualifies. */
  lemma ChainDetermined<S>(run: (nat, ConfEntry, S) -> S, changed: S -> bool, es: RuleConf, ran: RuleConf,
                           other: RuleConf, s: S)
    requires RunsUpToChange(run, changed, es, ran, s)
    requires other <= es && other != ran
    ensures !RunsUpToChange(run, changed, es, other, s)
  {
    if |ran| < |other| {
      assert other[..|ran|] == ran;
    } else {
      assert |other| < |ran| && ran[..|other|] == other;
    }
  }

  /** The loop of a chain that has not stopped yet. */
  ghost predicate GoingOn<S>(run: (nat, ConfEntry, S) -> S, changed: S -> bool, ran: RuleConf, s0: S, s: S) {
    && s == ExecAll(run, ran, s0)
    && forall j :: 0 < j <= |ran| ==> !changed(ExecAll(run, ran[..j], s0))
  }

  /** One more plugin: the chain goes on, or this was where it stops. */
  lemma ChainStep<S>(reg: Registry, conf: RuleConf, i: nat, run: (nat, ConfEntry, S) -> S, changed: S -> bool,
                     ran: RuleConf, s0: S, s: S)
    requires i < |conf| && conf[i].name in reg
    requires ran == Resolvable(reg, conf[..i]) && GoingOn(run, changed, ran, s0, s)
    ensures
      var ran', s' := ran + [conf[i]], run(|ran|, conf[i], s);
      && ran' == Resolvable(reg, conf[..i + 1])
      && s' == ExecAll(run, ran', s0)
      && (!changed(s') ==> GoingOn(run, changed, ran', s0, s'))
      && (changed(s') ==> RunsUpToChange(run, changed, Resolvable(reg, conf), ran', s0))
  {
    var ran' := ran + [conf[i]];
    assert conf[..i + 1][..i] == conf[..i];
    assert ran'[..|ran|] == ran && ran'[..|ran'|] == ran';
    assert forall j :: 0 < j <= |ran| ==> ran'[..j] == ran[..j];
    ResolvablePrefix(reg, conf, i + 1);
  }

  lemma ChainSkip(reg: Registry, conf: RuleConf, i: nat)
    requires i < |conf| && conf[i].name !in reg
    ensures Resolvable(reg, conf[..i + 1]) == Resolvable(reg, conf[..i])
  {
    assert conf[..i + 1][..i] == conf[..i];
  }

  // ---- the request phase ----

  datatype World = World(w: Resp, r: Req)

  /** Plugins cannot see the argument clone. */
  function Visible(r: Req): Req {
    r.(rawArgs := map[])
  }

  function CallsOf(reg: Registry, n: nat, e: ConfEntry, s: World): Calls {
    if e.name in reg then reg[e.name].request(n, e.value, s.w, Visible(s.r)) else Calls([], [])
  }

  function RunPlugin(reg: Registry, n: nat, e: ConfEntry, s: World): World {
    var calls := CallsOf(reg, n, e, s);
    World(WriterRun(s.w, calls.onResp), Run(s.r, calls.onReq))
  }

  function Runner(reg: Registry): (nat, ConfEntry, World) -> World {
    (n: nat, e: ConfEntry, s: World) => RunPlugin(reg, n, e, s)
  }

  function Stopped(): World -> bool {
    (s: World) => HasChange(s.w)
  }

  /** One plugin was called: its RequestFilter, with its own configuration, on what it is shown. */
  ghost predicate Called(reg: Registry, n: nat, e: ConfEntry, t: World, after: World) {
    && e.name in reg
    && var c := reg[e.name].request(n, e.value, t.w, t.r.(rawArgs := map[]));
       after == World(WriterRun(t.w, c.onResp), Run(t.r, c.onReq))
  }

  /** Something was written or a status given. */
  predicate Answered(t: World) {
    t.w.body.Some? || t.w.code != 0
  }

  /** The chain spelled out: every plugin that ran was called on what the ones before it left, none
      of these had answered, and either all ran or the last one answered. */
  ghost predicate RequestChain(reg: Registry, conf: RuleConf, ran: RuleConf, s: World) {
    var es := Resolvable(reg, conf);
    && ran <= es
    && ExecAll(Runner(reg), [], s) == s
    && (forall i :: 0 <= i < |ran| ==>
                      Called(reg, i, ran[i], ExecAll(Runner(reg), ran[..i], s), ExecAll(Runner(reg), ran[..i + 1], s)))
    && (forall i :: 0 < i < |ran| ==> !Answered(ExecAll(Runner(reg), ran[..i], s)))
    && (ran == es || (ran != [] && Answered(ExecAll(Runner(reg), ran, s))))
  }

  lemma ChainCalls(reg: Registry, conf: RuleConf, ran: RuleConf, s: World)
    requires RunsUpToChange(Runner(reg), Stopped(), Resolvable(reg, conf), ran, s)
    ensures RequestChain(reg, conf, ran, s)
  {
    forall i | 0 <= i < |ran|
      ensures Called(reg, i, ran[i], ExecAll(Runner(reg), ran[..i], s), ExecAll(Runner(reg), ran[..i + 1], s))
    {
      ExecStep(Runner(reg), ran, i, s);
      ResolvableNames(reg, conf, i);
    }
  }

  lemma ResolvableNames(reg: Registry, conf: RuleConf, i: nat)
    requires i < |Resolvable(reg, conf)|
    ensures Resolvable(reg, conf)[i].name in reg
  {
    var ix := ResolvableExact(reg, conf);
    assert ix[i] in ix;
  }

  /** plugin.RequestFilter(c.Value, w, r). */
  method RunOne(reg: Registry, n: nat, c: ConfEntry, w: ReqResponse, r: Request.Request)
    requires c.name in reg && r.Valid() && w !in r.Repr()
    modifies w, r.Repr()
    ensures r.Valid() && w !in r.Repr() && fresh(r.Repr() - old(r.Repr()))
    ensures World(w.Model(), r.Model()) == RunPlugin(reg, n, c, old(World(w.Model(), r.Model())))
  {
    var calls := reg[c.name].request(n, c.value, w.Model(), Visible(r.Model()));
    w.PerformAll(calls.onResp);
    var _ := r.PerformAll(calls.onReq);
  }

  /** requestPhase.filter: the chain runs the resolvable plugins in order up to and including the
      first that responds. */
  method RequestFilter(reg: Registry, conf: RuleConf, w: ReqResponse, r: Request.Request)
    returns (ghost ran: RuleConf)
    requires r.Valid() && w !in r.Repr()
    modifies w, r.Repr()
    ensures r.Valid() && fresh(r.Repr() - old(r.Repr()))
    ensures
      var s := old(World(w.Model(), r.Model()));
      && RunsUpToChange(Runner(reg), Stopped(), Resolvable(reg, conf), ran, s)
      && World(w.Model(), r.Model()) == ExecAll(Runner(reg), ran, s)
  {
    ghost var s0 := World(w.Model(), r.Model());
    ran := [];
    var n: nat := 0;
    for i := 0 to |conf|
      invariant r.Valid() && w !in r.Repr() && fresh(r.Repr() - old(r.Repr()))
      invariant ran == Resolvable(reg, conf[..i]) && n == |ran|
      invariant GoingOn(Runner(reg), Stopped(), ran, s0, World(w.Model(), r.Model()))
    {
      if conf[i].name in reg {
        ChainStep(reg, conf, i, Runner(reg), Stopped(), ran, s0, World(w.Model(), r.Model()));
        RunOne(reg, n, conf[i], w, r);
        ran, n := ran + [conf[i]], n + 1;
        if w.body.Some? || w.code != 0 {
          return;
        }
      } else {
        ChainSkip(reg, conf, i);
      }
    }
    assert conf[..|conf|] == conf;
  }

  datatype ReqReply =
    | StopReply(id: nat, stop: Stop)
    | RewriteReply(id: nat, rewrite: Rewrite)
    | NoChange(id: nat)

  /** Stop if a plugin responded, else Rewrite if the request was touched, else neither. */
  ghost predicate IsReqReply(id: nat, s: World, reply: ReqReply) {
    && reply.id == id
    && (reply.StopReply? <==> HasChange(s.w))
    && (reply.StopReply? ==> IsStop(s.w, Some(reply.stop)))
    && (reply.RewriteReply? <==> !HasChange(s.w) && HasChanges(s.r))
    && (reply.RewriteReply? ==> IsReply(s.r, Some(reply.rewrite)))
  }

  /** requestPhase.builder. */
  method BuildReqReply(id: nat, w: ReqResponse, r: Request.Request) returns (reply: ReqReply)
    requires r.Valid()
    ensures IsReqReply(id, World(w.Model(), r.Model()), reply)
  {
    var stop := w.FetchChanges();
    if stop.Some? {
      return StopReply(id, stop.value);
    }
    var rewrite := r.FetchChanges();
    if rewrite.Some? {
      return RewriteReply(id, rewrite.value);
    }
    reply := NoChange(id);
  }

  lemma {:induction false} ExecAlike(reg: Registry, es: RuleConf, s: World, t: World)
    requires s.w == t.w && RequestProofs.Alike(s.r, t.r)
    ensures
      var s', t' := ExecAll(Runner(reg), es, s), ExecAll(Runner(reg), es, t);
      s'.w == t'.w && RequestProofs.Alike(s'.r, t'.r)
  {
    if es != [] {
      var init, e := es[..|es| - 1], es[|es| - 1];
      ExecAlike(reg, init, s, t);
      var s', t' := ExecAll(Runner(reg), init, s), ExecAll(Runner(reg), init, t);
      assert Visible(s'.r) == Visible(t'.r);
      RequestProofs.AlikeRun(s'.r, t'.r, CallsOf(reg, |init|, e, s').onReq);
    }
  }

  lemma ReuseAlike(reg: Registry, es: RuleConf, ran: RuleConf, reused: Req, raw: RawReq, reply: ReqReply)
    requires reused == Create(RequestModel.Reset(reused), raw)
    requires RunsUpToChange(Runner(reg), Stopped(), es, ran, World(NEW_RESP, reused))
    requires IsReqReply(raw.id, ExecAll(Runner(reg), ran, World(NEW_RESP, reused)), reply)
    ensures RunsUpToChange(Runner(reg), Stopped(), es, ran, World(NEW_RESP, New(raw)))
    ensures IsReqReply(raw.id, ExecAll(Runner(reg), ran, World(NEW_RESP, New(raw))), reply)
  {
    var s, t := World(NEW_RESP, reused), World(NEW_RESP, New(raw));
    forall j | 0 < j <= |ran|
      ensures Stopped()(ExecAll(Runner(reg), ran[..j], s)) == Stopped()(ExecAll(Runner(reg), ran[..j], t))
    {
      ExecAlike(reg, ran[..j], s, t);
    }
    assert ran[..|ran|] == ran;
    ExecAlike(reg, ran, s, t);
  }

  datatype CallResult<T> = TokenNotFound | Reply(reply: T)

  /** HTTPReqCall on objects taken from the pools: whatever lives they had before, the reply is
      one the chain gives on new objects, and they go back clean. */
  method HTTPReqCall(reg: Registry, raw: RawReq, conf: Option<RuleConf>, req: Request.Request, resp: ReqResponse)
    returns (result: CallResult<ReqReply>, ghost ran: RuleConf)
    requires req.Valid() && req.Model() == RequestModel.Reset(req.Model()) && resp.Model() == NEW_RESP
    modifies req, resp
    ensures conf.None? <==> result.TokenNotFound?
    ensures
      conf.Some? ==>
        var s := World(NEW_RESP, New(raw));
        && RunsUpToChange(Runner(reg), Stopped(), Resolvable(reg, conf.value), ran, s)
        && RequestChain(reg, conf.value, ran, s)
        && IsReqReply(raw.id, ExecAll(Runner(reg), ran, s), result.reply)
    ensures req.Valid() && req.Model() == RequestModel.Reset(req.Model()) && resp.Model() == NEW_RESP
  {
    req.Renew(raw);
    if conf.None? {
      req.Reset();
      resp.Reset();
      return TokenNotFound, [];
    }
    ghost var start := req.Model();
    ran := RequestFilter(reg, conf.value, resp, req);
    var reply := BuildReqReply(raw.id, resp, req);
    ReuseAlike(reg, Resolvable(reg, conf.value), ran, start, raw, reply);
    ChainCalls(reg, conf.value, ran, World(NEW_RESP, New(raw)));
    req.Reset();
    resp.Reset();
    result := Reply(reply);
  }

  // ---- what the whole chain did, as one run of calls ----

  function ChainOps(reg: Registry, es: RuleConf, s: World): seq<Op> {
    if es == [] then []
    else
      var init := es[..|es| - 1];
      ChainOps(reg, init, s) + CallsOf(reg, |init|, es[|es| - 1], ExecAll(Runner(reg), init, s)).onReq
  }

  function ChainWrites(reg: Registry, es: RuleConf, s: World): seq<WriterOp> {
    if es == [] then []
    else
      var init := es[..|es| - 1];
      ChainWrites(reg, init, s) + CallsOf(reg, |init|, es[|es| - 1], ExecAll(Runner(reg), init, s)).onResp
  }

  lemma {:induction false} RunAppend(s: Req, a: seq<Op>, b: seq<Op>)
    ensures Run(s, a + b) == Run(Run(s, a), b)
  {
    if b == [] {
      assert a + b == a;
    } else {
      RunAppend(s, a, b[..|b| - 1]);
      assert (a + b)[..|a + b| - 1] == a + b[..|b| - 1];
    }
  }

  lemma {:induction false} WriterRunAppend(s: Resp, a: seq<WriterOp>, b: seq<WriterOp>)
    ensures WriterRun(s, a + b) == WriterRun(WriterRun(s, a), b)
  {
    if b == [] {
      assert a + b == a;
    } else {
      WriterRunAppend(s, a, b[..|b| - 1]);
      assert (a + b)[..|a + b| - 1] == a + b[..|b| - 1];
    }
  }

  lemma {:induction false} ChainIsRun(reg: Registry, es: RuleConf, s: World)
    ensures ExecAll(Runner(reg), es, s)
            == World(WriterRun(s.w, ChainWrites(reg, es, s)), Run(s.r, ChainOps(reg, es, s)))
  {
    if es != [] {
      var init, e := es[..|es| - 1], es[|es| - 1];
      ChainIsRun(reg, init, s);
      var calls := CallsOf(reg, |init|, e, ExecAll(Runner(reg), init, s));
      RunAppend(s.r, ChainOps(reg, init, s), calls.onReq);
      WriterRunAppend(s.w, ChainWrites(reg, init, s), calls.onResp);
    }
  }

  function RewriteOf(reply: ReqReply): Option<Rewrite> {
    if reply.RewriteReply? then Some(reply.rewrite) else None
  }

  /** A header at APISIX against the value asked for and the value last seen. */
  ghost predicate HeaderExact(raw: RawReq, ops: seq<Op>, last: Req, m: Message, key: string) {
    var c, es := Canon(key), EditsOf(ops);
    var lost, hidden := Header.LostDelete(raw.headers, es, c), Header.HiddenEmpty(raw.headers, es, c);
    && (Get(m.headers, key) == Header.Intended(raw.headers, es, c) <==> !lost)
    && (Get(m.headers, key) == Header.Seen(WithHeader(last).hdr.value, c) <==> !lost && !hidden)
  }

  /** End to end, when no plugin responds: for every registry, configuration, request and peer
      that tells the body truthfully, what APISIX makes of the reply is the request as the chain
      left it, with the exceptions of RewriteExact. */
  lemma CallRewriteExact(reg: Registry, ran: RuleConf, raw: RawReq, original: Bytes, reply: ReqReply, key: string)
    requires
      var s := World(NEW_RESP, New(raw));
      && IsReqReply(raw.id, ExecAll(Runner(reg), ran, s), reply) && !reply.StopReply?
      && Truthful(ChainOps(reg, ran, s), original)
    ensures
      var s := World(NEW_RESP, New(raw));
      var ops, last := ChainOps(reg, ran, s), ExecAll(Runner(reg), ran, s).r;
      var m := Apply(Arrived(raw, original), RewriteOf(reply));
      && reply.id == raw.id && (reply.RewriteReply? <==> Touched(ops))
      && m.path == PathOf(last) == IntendedPath(raw, ops)
      && (m.args == IntendedArgs(raw, ops) <==> NoEmptyList(IntendedArgs(raw, ops)))
      && RequestProofs.CarriesRespHeader(RewriteOf(reply), IntendedRespHeader(ops))
      && (m.body == RequestProofs.Delivered(LastSetBody(ops), original) <==> !RequestProofs.BodyUndone(ops, original))
      && (m.body == RequestProofs.BodySeen(last, original) <==> !RequestProofs.BodyUnseen(ops, original))
      && HeaderExact(raw, ops, last, m, key)
  {
    var s := World(NEW_RESP, New(raw));
    var ops := ChainOps(reg, ran, s);
    ChainIsRun(reg, ran, s);
    RequestProofs.RewriteExact(raw, ops, original, RewriteOf(reply));
    RequestProofs.RewriteGiven(raw, ops, RewriteOf(reply));
    RequestProofs.RewriteHeadersExact(raw, ops, original, RewriteOf(reply), key);
  }

  /** End to end, when one does: the stop reply carries what all plugins together wrote, every
      header they gave, and the first status any of them gave. */
  lemma CallStopExact(reg: Registry, ran: RuleConf, raw: RawReq, reply: ReqReply)
    requires IsReqReply(raw.id, ExecAll(Runner(reg), ran, World(NEW_RESP, New(raw))), reply)
    ensures
      var writes := ChainWrites(reg, ran, World(NEW_RESP, New(raw)));
      && reply.id == raw.id
      && (reply.StopReply? <==> AnyResponds(writes))
      && (reply.StopReply? ==>
            && BytesOf(reply.stop.body) == Written(writes)
            && (reply.stop.headers.Some? <==> Given(writes) != map[])
            && (reply.stop.headers.Some? ==> IsListing(Given(writes), reply.stop.headers.value))
            && reply.stop.status == (if FirstCode(writes) == 0 then 200 else FirstCode(writes) % 65536)
            && (FirstCode(writes) != 0 ==>
                  (reply.stop.status == FirstCode(writes) <==> 0 <= FirstCode(writes) < 0x1_0000)))
  {
    var s := World(NEW_RESP, New(raw));
    ChainIsRun(reg, ran, s);
    StopExact(ChainWrites(reg, ran, s), if reply.StopReply? then Some(reply.stop) else None);
  }

  lemma {:induction false} ChainWritesPrefix(reg: Registry, es: RuleConf, n: nat, s: World)
    requires n <= |es|
    ensures ChainWrites(reg, es[..n], s) <= ChainWrites(reg, es, s)
  {
    if n == |es| {
      assert es[..n] == es;
    } else {
      ChainWritesPrefix(reg, es[..|es| - 1], n, s);
      assert es[..|es| - 1][..n] == es[..n];
    }
  }

  /** A header given by the first `n` plugins of a chain is in the stop reply of the one that ends
      it, unless a later one changed it. */
  lemma ChainHeadersSurvive(reg: Registry, ran: RuleConf, n: nat, raw: RawReq, reply: ReqReply, name: string, v: string)
    requires n <= |ran|
    requires IsReqReply(raw.id, ExecAll(Runner(reg), ran, World(NEW_RESP, New(raw))), reply) && reply.StopReply?
    requires
      var s := World(NEW_RESP, New(raw));
      var early, all := ChainWrites(reg, ran[..n], s), ChainWrites(reg, ran, s);
      && name in Given(early) && v in Given(early)[name]
      && forall i :: |early| <= i < |all| ==> !Changes(all[i], name)
    ensures reply.stop.headers.Some? && Entry(name, Some(v)) in reply.stop.headers.value
  {
    var s := World(NEW_RESP, New(raw));
    var early, all := ChainWrites(reg, ran[..n], s), ChainWrites(reg, ran, s);
    ChainWritesPrefix(reg, ran, n, s);
    ChainIsRun(reg, ran, s);
    var later := all[|early|..];
    assert all == early + later;
    EarlierHeadersSurvive(early, later, name, v, Some(reply.stop));
  }

  /** No plugin of these entries does more than read, wherever it stands and whatever it sees. */
  ghost predicate AllRead(reg: Registry, es: RuleConf) {
    forall e, n, s :: e in es ==> OnlyReads(CallsOf(reg, n, e, s))
  }

  predicate OnlyReads(calls: Calls) {
    (forall op :: op in calls.onReq ==> ReadsOnly(op)) && !AnyResponds(calls.onResp)
  }

  lemma {:induction false} ChainReads(reg: Registry, es: RuleConf, s: World)
    requires AllRead(reg, es)
    ensures forall op :: op in ChainOps(reg, es, s) ==> ReadsOnly(op)
    ensures !AnyResponds(ChainWrites(reg, es, s))
  {
    if es != [] {
      var init := es[..|es| - 1];
      ChainReads(reg, init, s);
      assert OnlyReads(CallsOf(reg, |init|, es[|es| - 1], ExecAll(Runner(reg), init, s)));
    }
  }

  /** Read-only transparency end to end: if no call made in this run does more than read, nothing
      stops the chain, and what APISIX makes of the reply is the request exactly as it arrived.
      ChainReads says when plugins guarantee that. */
  lemma ReadOnlyCall(reg: Registry, ran: RuleConf, raw: RawReq, original: Bytes, reply: ReqReply)
    requires
      var s := World(NEW_RESP, New(raw));
      && (forall op :: op in ChainOps(reg, ran, s) ==> ReadsOnly(op))
      && !AnyResponds(ChainWrites(reg, ran, s))
      && Truthful(ChainOps(reg, ran, s), original)
      && IsReqReply(raw.id, ExecAll(Runner(reg), ran, s), reply)
    ensures !reply.StopReply?
    ensures Apply(Arrived(raw, original), RewriteOf(reply)) == Arrived(raw, original)
  {
    var s := World(NEW_RESP, New(raw));
    CallStopExact(reg, ran, raw, reply);
    ChainIsRun(reg, ran, s);
    RequestProofs.ReadsChangeNothing(raw, ChainOps(reg, ran, s), original, RewriteOf(reply));
  }

  // ---- the response phase ----

  function RespCallsOf(reg: Registry, n: nat, e: ConfEntry, s: Rsp): seq<RespOp> {
    if e.name in reg then reg[e.name].response(n, e.value, s) else []
  }

  function RespRunner(reg: Registry): (nat, ConfEntry, Rsp) -> Rsp {
    (n: nat, e: ConfEntry, s: Rsp) => RespRun(s, RespCallsOf(reg, n, e, s))
  }

  function RespStopped(): Rsp -> bool {
    (s: Rsp) => RespHasChange(s)
  }

  /** One plugin was called: its ResponseFilter, with its own configuration. */
  ghost predicate RespCalled(reg: Registry, n: nat, e: ConfEntry, t: Rsp, after: Rsp) {
    e.name in reg && after == RespRun(t, reg[e.name].response(n, e.value, t))
  }

  /** The body was written, a status given, or the headers used. */
  predicate Altered(t: Rsp) {
    t.body.Some? || t.statusCode != 0 || t.hdr.Some?
  }

  /** The response chain spelled out, as RequestChain does. */
  ghost predicate ResponseChain(reg: Registry, conf: RuleConf, ran: RuleConf, s: Rsp) {
    var es := Resolvable(reg, conf);
    && ran <= es
    && ExecAll(RespRunner(reg), [], s) == s
    && (forall i :: 0 <= i < |ran| ==>
                      RespCalled(reg, i, ran[i],
                                 ExecAll(RespRunner(reg), ran[..i], s), ExecAll(RespRunner(reg), ran[..i + 1], s)))
    && (forall i :: 0 < i < |ran| ==> !Altered(ExecAll(RespRunner(reg), ran[..i], s)))
    && (ran == es || (ran != [] && Altered(ExecAll(RespRunner(reg), ran, s))))
  }

  lemma RespChainCalls(reg: Registry, conf: RuleConf, ran: RuleConf, s: Rsp)
    requires RunsUpToChange(RespRunner(reg), RespStopped(), Resolvable(reg, conf), ran, s)
    ensures ResponseChain(reg, conf, ran, s)
  {
    forall i | 0 <= i < |ran|
      ensures RespCalled(reg, i, ran[i],
                         ExecAll(RespRunner(reg), ran[..i], s), ExecAll(RespRunner(reg), ran[..i + 1], s))
    {
      ExecStep(RespRunner(reg), ran, i, s);
      ResolvableNames(reg, conf, i);
    }
  }

  /** plugin.ResponseFilter(c.Value, w). */
  method RunOneResp(reg: Registry, n: nat, c: ConfEntry, w: Response)
    requires c.name in reg && w.Valid()
    modifies w.Repr()
    ensures w.Valid() && fresh(w.Repr() - old(w.Repr()))
    ensures w.Model() == RespRunner(reg)(n, c, old(w.Model()))
  {
    var _ := w.PerformAll(reg[c.name].response(n, c.value, w.Model()));
  }

  /** responsePhase.filter. */
  method ResponseFilter(reg: Registry, conf: RuleConf, w: Response) returns (ghost ran: RuleConf)
    requires w.Valid()
    modifies w.Repr()
    ensures w.Valid() && fresh(w.Repr() - old(w.Repr()))
    ensures RunsUpToChange(RespRunner(reg), RespStopped(), Resolvable(reg, conf), ran, old(w.Model()))
    ensures w.Model() == ExecAll(RespRunner(reg), ran, old(w.Model()))
  {
    ghost var s0 := w.Model();
    ran := [];
    var n: nat := 0;
    for i := 0 to |conf|
      invariant w.Valid() && fresh(w.Repr() - old(w.Repr()))
      invariant ran == Resolvable(reg, conf[..i]) && n == |ran|
      invariant GoingOn(RespRunner(reg), RespStopped(), ran, s0, w.Model())
    {
      if conf[i].name in reg {
        ChainStep(reg, conf, i, RespRunner(reg), RespStopped(), ran, s0, w.Model());
        RunOneResp(reg, n, conf[i], w);
        ran, n := ran + [conf[i]], n + 1;
        if w.body.Some? || w.hdr != null || w.statusCode != 0 {
          return;
        }
      } else {
        ChainSkip(reg, conf, i);
      }
    }
    assert conf[..|conf|] == conf;
  }

  /** responsePhase.builder: without a change the reply is empty but for the id. */
  method BuildRespReply(id: nat, w: Response) returns (reply: RespReply)
    requires w.Valid() && id == w.r.id
    ensures IsSent(w.Model(), reply)
  {
    var changes := w.FetchChanges();
    if changes.Some? {
      return changes.value;
    }
    reply := RespReply(id, 0, None, None);
  }

  /** HTTPRespCall on an object taken from the pool: whatever life it had before, the reply is one
      the chain gives on a new object, and it goes back clean. */
  method HTTPRespCall(reg: Registry, raw: RawResp, conf: Option<RuleConf>, resp: Response)
    returns (result: CallResult<RespReply>, ghost ran: RuleConf)
    requires resp.Valid() && resp.Model() == NewRsp(resp.r)
    modifies resp
    ensures conf.None? <==> result.TokenNotFound?
    ensures conf.Some? ==>
              && RunsUpToChange(RespRunner(reg), RespStopped(), Resolvable(reg, conf.value), ran, NewRsp(raw))
              && ResponseChain(reg, conf.value, ran, NewRsp(raw))
              && IsSent(ExecAll(RespRunner(reg), ran, NewRsp(raw)), result.reply)
    ensures resp.Valid() && resp.Model() == NewRsp(resp.r)
  {
    resp.Renew(raw);
    ran := [];
    if conf.None? {
      resp.Reset();
      return TokenNotFound, ran;
    }
    ran := ResponseFilter(reg, conf.value, resp);
    RespChainIsRun(reg, ran, NewRsp(raw));
    RespRunTracks(raw, RespChainOps(reg, ran, NewRsp(raw)));
    RespChainCalls(reg, conf.value, ran, NewRsp(raw));
    var reply := BuildRespReply(raw.id, resp);
    resp.Reset();
    result := Reply(reply);
  }

  // ---- the response chain as one run of calls ----

  function RespChainOps(reg: Registry, es: RuleConf, s: Rsp): seq<RespOp> {
    if es == [] then []
    else
      var init := es[..|es| - 1];
      RespChainOps(reg, init, s) + RespCallsOf(reg, |init|, es[|es| - 1], ExecAll(RespRunner(reg), init, s))
  }

  lemma {:induction false} RespRunAppend(s: Rsp, a: seq<RespOp>, b: seq<RespOp>)
    ensures RespRun(s, a + b) == RespRun(RespRun(s, a), b)
  {
    if b == [] {
      assert a + b == a;
    } else {
      RespRunAppend(s, a, b[..|b| - 1]);
      assert (a + b)[..|a + b| - 1] == a + b[..|b| - 1];
    }
  }

  lemma {:induction false} RespChainIsRun(reg: Registry, es: RuleConf, s: Rsp)
    ensures ExecAll(RespRunner(reg), es, s) == RespRun(s, RespChainOps(reg, es, s))
  {
    if es != [] {
      var init, e := es[..|es| - 1], es[|es| - 1];
      RespChainIsRun(reg, init, s);
      RespRunAppend(s, RespChainOps(reg, init, s), RespCallsOf(reg, |init|, e, ExecAll(RespRunner(reg), init, s)));
    }
  }

  /** End to end for responses: what APISIX makes of the reply sent is the response as the chain
      left it, with the exceptions of status, body and header stated there. */
  lemma RespCallExact(reg: Registry, ran: RuleConf, raw: RawResp, original: Bytes, reply: RespReply, key: string)
    requires raw.status < 0x1_0000
    requires IsSent(ExecAll(RespRunner(reg), ran, NewRsp(raw)), reply)
    ensures
      var ops := RespChainOps(reg, ran, NewRsp(raw));
      var m := ApplyResp(RespMessage(raw.status, Parse(raw.headers), original), reply);
      var code, writes := FirstCode(WriterOps(ops)), Written(WriterOps(ops));
      && reply.id == raw.id
      && (m.status == (if code == 0 then raw.status else code) <==> 0 <= code < 0x1_0000)
      && (m.body == IntendedBody(ops, original) <==> !(Writes(ops) && writes == [] && original != []))
      && (Get(m.headers, key) == Header.Intended(raw.headers, RespEdits(ops), Canon(key))
          <==> !Header.LostDelete(raw.headers, RespEdits(ops), Canon(key)))
  {
    var ops := RespChainOps(reg, ran, NewRsp(raw));
    var m := RespMessage(raw.status, Parse(raw.headers), original);
    RespChainIsRun(reg, ran, NewRsp(raw));
    RespStatusExact(raw, ops, m, reply);
    RespBodyExact(raw, ops, m, reply);
    RespHeadersExact(raw, ops, m, reply, key);
  }
}
