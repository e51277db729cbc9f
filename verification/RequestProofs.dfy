/** What holds of every run of calls on a request. */
module RequestProofs {
  import opened Basics
  import opened HttpHeader
  import opened Args
  import opened RequestModel
  import Header

  /** The state of the lazily filled parts, told from the header edits alone. */
  ghost predicate Tracks(s: Req, raw: RawReq, es: seq<Header.Edit>) {
    && s.r == raw
    && (s.hdr.Some? ==> s.hdr.value == Header.Run(raw.headers, es))
    && (s.hdr.None? ==> es == [])
    && (s.args.Some? ==> s.rawArgs == ParseArgs(raw.args))
  }

  lemma EditTracks(s: Req, raw: RawReq, es: seq<Header.Edit>, e: Header.Edit)
    requires Tracks(s, raw, es)
    ensures Tracks(EditHeader(s, e), raw, es + [e])
  {
  }

  lemma StepTracks(s: Req, raw: RawReq, es: seq<Header.Edit>, op: Op)
    requires Tracks(s, raw, es)
    ensures Tracks(Step(s, op), raw, es + EditOf(op))
  {
    if op.SetHeader? {
      EditTracks(s, raw, es, Header.SetEdit(op.key, op.value));
    } else if op.DelHeader? {
      EditTracks(s, raw, es, Header.DelEdit(op.key));
    } else {
      assert es + [] == es;
    }
  }

  lemma {:induction false} RunTracks(raw: RawReq, ops: seq<Op>)
    ensures Tracks(Run(New(raw), ops), raw, EditsOf(ops))
  {
    if ops != [] {
      var init := ops[..|ops| - 1];
      RunTracks(raw, init);
      StepTracks(Run(New(raw), init), raw, EditsOf(init), ops[|ops| - 1]);
    }
  }

  lemma StepPath(s: Req, op: Op)
    ensures Step(s, op).path == (if op.SetPath? then op.path else s.path) && Step(s, op).r == s.r
  {
  }

  lemma StepArgs(s: Req, op: Op)
    ensures WithArgs(Step(s, op)).args.value ==
              match op
              case PutArg(name, values) => WithArgs(s).args.value[name := values]
              case DropArg(name) => WithArgs(s).args.value - {name}
              case _ => WithArgs(s).args.value
  {
  }

  lemma {:induction false} RunPath(raw: RawReq, ops: seq<Op>)
    ensures PathOf(Run(New(raw), ops)) == IntendedPath(raw, ops) && Run(New(raw), ops).r == raw
  {
    if ops != [] {
      RunPath(raw, ops[..|ops| - 1]);
      StepPath(Run(New(raw), ops[..|ops| - 1]), ops[|ops| - 1]);
    }
  }

  lemma {:induction false} RunArgs(raw: RawReq, ops: seq<Op>)
    ensures WithArgs(Run(New(raw), ops)).args.value == IntendedArgs(raw, ops)
  {
    if ops != [] {
      RunArgs(raw, ops[..|ops| - 1]);
      StepArgs(Run(New(raw), ops[..|ops| - 1]), ops[|ops| - 1]);
    }
  }

  lemma {:induction false} RunRespHeader(raw: RawReq, ops: seq<Op>)
    ensures Run(New(raw), ops).respHdr == IntendedRespHeader(ops)
  {
    if ops != [] {
      RunRespHeader(raw, ops[..|ops| - 1]);
    }
  }

  // ---- bodies ----

  function Delivered(body: Option<Bytes>, original: Bytes): Bytes {
    if body.None? then original else body.value
  }

  lemma {:induction false} RunBody(raw: RawReq, ops: seq<Op>, original: Bytes)
    requires Truthful(ops, original)
    ensures
      var s, last := Run(New(raw), ops), LastSetBody(ops);
      if Cached(last) || (last.Some? && !ReadBack(ops)) then s.body == last
      else Delivered(s.body, original) == original && (s.body.Some? ==> s.body.value == original)
  {
    if ops != [] {
      RunBody(raw, ops[..|ops| - 1], original);
      assert ops[|ops| - 1] in ops;
    }
  }

  /** An emptied body is read back and so undone. */
  predicate BodyUndone(ops: seq<Op>, original: Bytes) {
    LastSetBody(ops) == Some([]) && ReadBack(ops) && original != []
  }

  /** An emptied body was not read back: Body would still ask the peer for the original. */
  predicate BodyUnseen(ops: seq<Op>, original: Bytes) {
    LastSetBody(ops) == Some([]) && !ReadBack(ops) && original != []
  }

  /** What Body answers next. */
  function BodySeen(s: Req, original: Bytes): Bytes {
    if Cached(s.body) then s.body.value else original
  }

  ghost predicate CarriesRespHeader(reply: Option<Rewrite>, given: Option<Values>) {
    var carried := if reply.None? then None else reply.value.respHeaders;
    && (carried.Some? <==> given.Some?)
    && (carried.Some? ==> IsListing(given.value, carried.value))
  }

  // ---- the rewrite reply ----

  /** The rewrite reply, exactly. For every request, every run of calls, every iteration order
      and a peer that tells the body truthfully: applied to the request as it arrived, the reply
      - gives the path the plugins last set and saw;
      - gives the arguments they last made and saw if and only if none was left with an empty list;
      - carries exactly the response headers they gave along;
      - gives the body they last asked for unless it was an empty one and then read back, and
        the body they would see next unless it was an empty one and not read back. */
  lemma RewriteExact(raw: RawReq, ops: seq<Op>, original: Bytes, reply: Option<Rewrite>)
    requires IsReply(Run(New(raw), ops), reply) && Truthful(ops, original)
    ensures var s, m := Run(New(raw), ops), Apply(Arrived(raw, original), reply);
            && m.path == PathOf(s) == IntendedPath(raw, ops)
            && (m.args == IntendedArgs(raw, ops) <==> NoEmptyList(IntendedArgs(raw, ops)))
            && WithArgs(s).args.value == IntendedArgs(raw, ops)
            && CarriesRespHeader(reply, IntendedRespHeader(ops))
            && (m.body == Delivered(LastSetBody(ops), original) <==> !BodyUndone(ops, original))
            && (m.body == BodySeen(s, original) <==> !BodyUnseen(ops, original))
  {
    var s := Run(New(raw), ops);
    RunTracks(raw, ops);
    RunPath(raw, ops);
    RunArgs(raw, ops);
    RunRespHeader(raw, ops);
    RunBody(raw, ops, original);
    ParseArgsNoEmptyList(raw.args);
    if s.args.Some? {
      ArgsDiffExact(s.rawArgs, s.args.value, reply.value.args.value);
    }
  }

  /** A body emptied and then read back arrives unchanged. */
  lemma BodyUndoneWitness(raw: RawReq, reply: Option<Rewrite>)
    requires IsReply(Run(New(raw), [SetBody(Some([])), ReadBody(Got(Some([1])))]), reply)
    ensures LastSetBody([SetBody(Some([])), ReadBody(Got(Some([1])))]) == Some([])
    ensures Apply(Arrived(raw, [1]), reply).body == [1]
  {
    var ops := [SetBody(Some([])), ReadBody(Got(Some([1])))];
    assert ops[..1] == [SetBody(Some([]))] && ops[..1][..0] == [];
    assert Run(New(raw), ops[..1]).body == Some([]);
    assert Run(New(raw), ops).body == Some([1]);
  }

  /** A body emptied and not read back arrives empty, but Body would still answer the original. */
  lemma BodyUnseenWitness(raw: RawReq, reply: Option<Rewrite>)
    requires IsReply(Run(New(raw), [SetBody(Some([]))]), reply)
    ensures Apply(Arrived(raw, [1]), reply).body == []
    ensures BodySeen(Run(New(raw), [SetBody(Some([]))]), [1]) == [1]
  {
    var ops := [SetBody(Some([]))];
    assert ops[..0] == [];
    assert Run(New(raw), ops).body == Some([]);
  }

  /** And every header name has the value last asked for unless its deletion was lost, the value
      last seen unless, also, an empty value was hidden. */
  lemma RewriteHeadersExact(raw: RawReq, ops: seq<Op>, original: Bytes, reply: Option<Rewrite>, key: string)
    requires IsReply(Run(New(raw), ops), reply)
    ensures var s, m, c := Run(New(raw), ops), Apply(Arrived(raw, original), reply), Canon(key);
            var lost := Header.LostDelete(raw.headers, EditsOf(ops), c);
            var hidden := Header.HiddenEmpty(raw.headers, EditsOf(ops), c);
            && (Get(m.headers, key) == Header.Intended(raw.headers, EditsOf(ops), c) <==> !lost)
            && (Get(m.headers, key) == Header.Seen(WithHeader(s).hdr.value, c) <==> !lost && !hidden)
  {
    var s := Run(New(raw), ops);
    RunTracks(raw, ops);
    if s.hdr.Some? {
      Header.DiffExact(raw.headers, EditsOf(ops), reply.value.headers.value, key);
    }
  }

  // ---- read-only plugins ----

  lemma {:induction false} ReadsOnlyRun(raw: RawReq, ops: seq<Op>)
    requires forall op :: op in ops ==> ReadsOnly(op)
    ensures
      var s := Run(New(raw), ops);
      && s.path.None? && s.respHdr.None? && EditsOf(ops) == [] && LastSetBody(ops).None?
      && (s.args.Some? ==> s.args.value == ParseArgs(raw.args))
  {
    if ops != [] {
      ReadsOnlyRun(raw, ops[..|ops| - 1]);
      RunTracks(raw, ops[..|ops| - 1]);
      assert ReadsOnly(ops[|ops| - 1]);
      ReadsOnlyStep(raw, Run(New(raw), ops[..|ops| - 1]), ops[|ops| - 1]);
    }
  }

  lemma ReadsOnlyStep(raw: RawReq, s: Req, op: Op)
    requires ReadsOnly(op) && s.path.None? && s.respHdr.None? && s.r == raw
    requires s.args.Some? ==> s.args.value == ParseArgs(raw.args)
    ensures
      var t := Step(s, op);
      && t.path.None? && t.respHdr.None?
      && (t.args.Some? ==> t.args.value == ParseArgs(raw.args))
  {
  }

  /** Read-only transparency: plugins that only read may still cause a rewrite reply, but applied
      it leaves the request exactly as it arrived. */
  lemma ReadsChangeNothing(raw: RawReq, ops: seq<Op>, original: Bytes, reply: Option<Rewrite>)
    requires forall op :: op in ops ==> ReadsOnly(op)
    requires IsReply(Run(New(raw), ops), reply) && Truthful(ops, original)
    ensures Apply(Arrived(raw, original), reply) == Arrived(raw, original)
  {
    var s := Run(New(raw), ops);
    ReadsOnlyRun(raw, ops);
    RunTracks(raw, ops);
    RunBody(raw, ops, original);
    if s.args.Some? {
      OnlyChangesMentioned(s.rawArgs, s.args.value, reply.value.args.value);
    }
    if s.hdr.Some? {
      Header.NoEditsNoDiff(raw.headers, reply.value.headers.value);
    }
  }

  // ---- pool reuse ----

  /** Equal but for what the argument clone held in an earlier life. */
  ghost predicate Alike(s: Req, t: Req) {
    s == t || (t.args.None? && s == t.(rawArgs := s.rawArgs))
  }

  lemma AlikeStep(s: Req, t: Req, op: Op)
    requires Alike(s, t)
    ensures Alike(Step(s, op), Step(t, op))
    ensures Observe(s, op) == Observe(t, op)
  {
    if op.PutArg? || op.DropArg? || op.OpenArgs? {
      assert WithArgs(s) == WithArgs(t);
    }
  }

  lemma {:induction false} AlikeRun(s: Req, t: Req, ops: seq<Op>)
    requires Alike(s, t)
    ensures Alike(Run(s, ops), Run(t, ops))
    ensures Observations(s, ops) == Observations(t, ops)
  {
    if ops != [] {
      var init := ops[..|ops| - 1];
      AlikeRun(s, t, init);
      AlikeStep(Run(s, init), Run(t, init), ops[|ops| - 1]);
    }
  }

  /** Reuse is unobservable: whatever an object from the pool went through before, a run on it
      shows the plugins the same and allows the same replies as on a new object, although Reset
      keeps the old argument clone. */
  lemma ReuseUnobservable(earlier: Req, raw: RawReq, ops: seq<Op>, reply: Option<Rewrite>)
    ensures
      var reused := Create(Reset(earlier), raw);
      && Observations(reused, ops) == Observations(New(raw), ops)
      && (IsReply(Run(reused, ops), reply) <==> IsReply(Run(New(raw), ops), reply))
  {
    AlikeRun(Create(Reset(earlier), raw), New(raw), ops);
  }

  // ---- the variable cache ----

  /** The cache and the exchanges for one name, told from the calls alone. */
  ghost predicate VarKept(s: Req, exchanges: nat, first: Option<Option<Bytes>>, name: string) {
    && (name in s.vars <==> first.Some?)
    && (name in s.vars ==> s.vars[name] == first.value)
    && exchanges == (if first.Some? then 1 else 0)
  }

  lemma StepVar(s: Req, op: Op, name: string)
    ensures
      var asked := op.ReadVar? && op.name == name && op.answer.Got? && name !in s.vars;
      && (name in Step(s, op).vars <==> asked || name in s.vars)
      && (name in Step(s, op).vars ==> Step(s, op).vars[name] == if asked then op.answer.bytes else s.vars[name])
  {
  }

  lemma {:induction false} RunVar(raw: RawReq, ops: seq<Op>, name: string)
    ensures VarKept(Run(New(raw), ops), Exchanges(New(raw), ops, name), FirstGot(ops, name), name)
  {
    if ops != [] {
      RunVar(raw, ops[..|ops| - 1], name);
      StepVar(Run(New(raw), ops[..|ops| - 1]), ops[|ops| - 1], name);
    }
  }

  /** Over any run, a variable costs at most one successful exchange, and what Var answers next is
      the answer of that exchange, or a new one if there was none: failures are not kept, and other
      names are not touched. */
  lemma VariableCache(raw: RawReq, ops: seq<Op>, name: string, answer: Answer)
    ensures
      var first := FirstGot(ops, name);
      && Exchanges(New(raw), ops, name) == (if first.Some? then 1 else 0)
      && Observe(Run(New(raw), ops), ReadVar(name, answer))
         == SawBytes(if first.Some? then Got(first.value) else answer)
  {
    RunVar(raw, ops, name);
  }

  // ---- what the plugins see ----

  lemma {:induction false} RunBodyExact(raw: RawReq, ops: seq<Op>)
    ensures Run(New(raw), ops).body == if KnownBody(ops).Some? then KnownBody(ops) else LastGiven(ops)
    ensures Cached(Run(New(raw), ops).body) <==> KnownBody(ops).Some?
  {
    if ops != [] {
      RunBodyExact(raw, ops[..|ops| - 1]);
      StepBody(Run(New(raw), ops[..|ops| - 1]), ops[|ops| - 1]);
    }
  }

  lemma StepBody(s: Req, op: Op)
    ensures Step(s, op).body ==
              if op.SetBody? then op.body
              else if op.ReadBody? && op.answer.Got? && !Cached(s.body) then op.answer.bytes
              else s.body
  {
  }

  /** What every call shows, over every run before it: the path and the arguments last asked for,
      the response headers given along, each header as last asked for or, if that is hidden, as it
      arrived, and the body that was set or first read, the peer's answer if there is none. */
  lemma ObservesExact(raw: RawReq, ops: seq<Op>, key: string, answer: Answer)
    ensures
      var s, given, known, c := Run(New(raw), ops), IntendedRespHeader(ops), KnownBody(ops), Canon(key);
      && Observe(s, ReadPath) == SawPath(IntendedPath(raw, ops))
      && Observe(s, OpenArgs) == SawArgs(IntendedArgs(raw, ops))
      && Observe(s, OpenRespHeader) == SawRespHeader(if given.None? then map[] else given.value)
      && Observe(s, GetHeader(key)) == SawHeader(Header.Shown(raw.headers, EditsOf(ops), c))
      && Observe(s, ReadBody(answer)) == SawBytes(if known.Some? then Got(known) else answer)
  {
    ObservesMaps(raw, ops);
    ObservesHeader(raw, ops, key);
    ObservesBody(raw, ops, answer);
  }

  lemma ObservesMaps(raw: RawReq, ops: seq<Op>)
    ensures
      var s, given := Run(New(raw), ops), IntendedRespHeader(ops);
      && Observe(s, ReadPath) == SawPath(IntendedPath(raw, ops))
      && Observe(s, OpenArgs) == SawArgs(IntendedArgs(raw, ops))
      && Observe(s, OpenRespHeader) == SawRespHeader(if given.None? then map[] else given.value)
  {
    RunPath(raw, ops);
    RunArgs(raw, ops);
    RunRespHeader(raw, ops);
  }

  lemma ObservesBody(raw: RawReq, ops: seq<Op>, answer: Answer)
    ensures
      var known := KnownBody(ops);
      Observe(Run(New(raw), ops), ReadBody(answer)) == SawBytes(if known.Some? then Got(known) else answer)
  {
    RunBodyExact(raw, ops);
  }

  lemma ObservesHeader(raw: RawReq, ops: seq<Op>, key: string)
    ensures Observe(Run(New(raw), ops), GetHeader(key))
            == SawHeader(Header.Shown(raw.headers, EditsOf(ops), Canon(key)))
  {
    var s := Run(New(raw), ops);
    RunTracks(raw, ops);
    assert WithHeader(s).hdr.value == Header.Run(raw.headers, EditsOf(ops));
    CanonIdempotent(key);
    Header.SeenExact(raw.headers, EditsOf(ops), Canon(key));
  }

  /** The observations of a run are those of its calls, each after the ones before it. */
  lemma {:induction false} ObservationsAt(s: Req, ops: seq<Op>, i: nat)
    requires i < |ops|
    ensures |Observations(s, ops)| == |ops|
    ensures Observations(s, ops)[i] == Observe(Run(s, ops[..i]), ops[i])
  {
    var n := |ops| - 1;
    if n > 0 {
      ObservationsAt(s, ops[..n], if i < n then i else 0);
    }
    if i < n {
      assert ops[..n][..i] == ops[..i];
    }
  }

  lemma {:induction false} RunOpened(raw: RawReq, ops: seq<Op>)
    ensures
      var s := Run(New(raw), ops);
      && s.path == LastSetPath(ops)
      && (s.hdr.Some? || s.args.Some? || s.respHdr.Some? <==> exists op :: op in ops && Opens(op))
  {
    if ops != [] {
      var init, op := ops[..|ops| - 1], ops[|ops| - 1];
      RunOpened(raw, init);
      StepOpened(Run(New(raw), init), op);
      assert forall o :: o in ops <==> o in init || o == op;
    }
  }

  lemma StepOpened(s: Req, op: Op)
    ensures
      var t := Step(s, op);
      && t.path == (if op.SetPath? then op.path else s.path)
      && (t.hdr.Some? || t.args.Some? || t.respHdr.Some? <==>
            s.hdr.Some? || s.args.Some? || s.respHdr.Some? || Opens(op))
  {
  }

  /** There is a rewrite reply exactly when the calls leave a path or a body set or read, or used
      the headers, the arguments or the response headers at all. */
  lemma RewriteGiven(raw: RawReq, ops: seq<Op>, reply: Option<Rewrite>)
    requires IsReply(Run(New(raw), ops), reply)
    ensures reply.Some? <==> Touched(ops)
  {
    RunOpened(raw, ops);
    RunBodyExact(raw, ops);
  }

  /** A listing has every value of every name once and in order: read back entry by entry it gives
      each name its list, all but the empty ones, and it is as long as the lists together. */
  lemma ListingExact(m: Values, entries: seq<Entry>, n: string)
    requires IsListing(m, entries)
    ensures Field(ReceiveArgs(map[], entries), n) == if n in m && m[n] != [] then Some(m[n]) else None
    ensures |entries| == TotalLen(m, m.Keys)
  {
    var ns :| Enumerates(ns, m.Keys) && entries == Blocks(m, ns);
    ReceiveBlocks(ArgState(map[], {}), m, ns);
    BlocksLen(m, ns, m.Keys);
  }
}
