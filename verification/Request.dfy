/** The Request object (internal/http/request.go). */
module Request {
  import opened Basics
  import opened HttpHeader
  import opened Args
  import opened RequestModel
  import Header

  /** StartVector, one PrependUOffsetT per entry from the last to the first, EndVector: a vector
      built back to front holds the entries in order. */
  method BuildVector(entries: seq<Entry>) returns (v: seq<Entry>)
    ensures v == entries
  {
    v := [];
    var i := |entries|;
    while i > 0
      invariant 0 <= i <= |entries|
      invariant v == entries[i..]
    {
      i := i - 1;
      v := [entries[i]] + v;
    }
  }

  /** Every value of a response header map, name by name in the map's iteration order. */
  method ListHeader(hdr: Values) returns (entries: seq<Entry>)
    ensures IsListing(hdr, entries)
  {
    entries := [];
    ghost var ns: seq<string> := [];
    var names := hdr.Keys;
    while names != {}
      invariant names <= hdr.Keys
      invariant Enumerates(ns, hdr.Keys - names)
      invariant entries == Blocks(hdr, ns)
    {
      var n :| n in names;
      ghost var before := entries;
      for i := 0 to |hdr[n]|
        invariant entries == before + Block(n, hdr[n][..i])
      {
        assert hdr[n][..i + 1][..i] == hdr[n][..i];
        entries := entries + [Entry(n, Some(hdr[n][i]))];
      }
      assert hdr[n][..|hdr[n]|] == hdr[n];
      names := names - {n};
      EnumerateOneMore(ns, hdr.Keys - names, n);
      ns := ns + [n];
    }
    assert hdr.Keys - names == hdr.Keys;
  }

  class Request {
    var r: RawReq
    var path: Option<Bytes>
    var hdr: Header.Header?
    var args: Option<Values>
    var rawArgs: Values
    var vars: map<string, Option<Bytes>>
    var body: Option<Bytes>
    var respHdr: Option<Values>

    /** The objects a request is made of. */
    ghost function Repr(): set<object>
      reads this
    {
      if hdr == null then {this} else {this, hdr}
    }

    function Model(): Req
      reads this, hdr
    {
      Req(r, path, if hdr == null then None else Some(hdr.Model()), args, rawArgs, vars, body, respHdr)
    }

    /** The header overlay belongs to this request, and so does the argument clone as soon as
        there are arguments. */
    ghost predicate Valid()
      reads this, hdr
    {
      && (hdr != null ==> hdr.Valid() && hdr.text == r.headers)
      && (args.Some? ==> rawArgs == ParseArgs(r.args))
    }

    /** The pool's New. */
    constructor (raw: RawReq)
      ensures Valid() && Model() == New(raw) && fresh(Repr())
    {
      r, path, hdr, args, rawArgs := raw, None, null, None, map[];
      vars, body, respHdr := map[], None, None;
    }

    method Path() returns (p: Bytes)
      ensures p == PathOf(Model())
    {
      p := if path.None? then r.path else path.value;
    }

    method SetPath(p: Option<Bytes>)
      requires Valid()
      modifies this`path
      ensures Valid() && Model() == Step(old(Model()), RequestModel.SetPath(p))
    {
      path := p;
    }

    method OpenHeader() returns (h: Header.Header)
      requires Valid()
      modifies this`hdr
      ensures Valid() && h == hdr && Model() == Step(old(Model()), RequestModel.OpenHeader)
      ensures hdr == old(hdr) || fresh(hdr)
    {
      if hdr == null {
        hdr := new Header.Header(r.headers);
      }
      h := hdr;
    }

    method OpenArgs() returns (a: Values)
      requires Valid()
      modifies this`args, this`rawArgs
      ensures Valid() && args == Some(a) && Model() == Step(old(Model()), RequestModel.OpenArgs)
    {
      if args.None? {
        var parsed: Values := map[];
        for i := 0 to |r.args|
          invariant parsed == ParseArgs(r.args[..i])
        {
          assert r.args[..i + 1][..i] == r.args[..i];
          parsed := AddArg(parsed, r.args[i].0, r.args[i].1);
        }
        assert r.args[..|r.args|] == r.args;
        args, rawArgs := Some(parsed), parsed;
      }
      a := args.value;
    }

    method OpenRespHeader() returns (h: Values)
      requires Valid()
      modifies this`respHdr
      ensures Valid() && respHdr == Some(h) && Model() == Step(old(Model()), RequestModel.OpenRespHeader)
    {
      if respHdr.None? {
        respHdr := Some(map[]);
      }
      h := respHdr.value;
    }

    /** Var: a cached name costs nothing, otherwise one exchange, kept if it succeeds. */
    method Var(name: string, answer: Answer) returns (v: Answer, asked: bool)
      requires Valid()
      modifies this`vars
      ensures Valid() && Model() == Step(old(Model()), ReadVar(name, answer))
      ensures SawBytes(v) == Observe(old(Model()), ReadVar(name, answer))
      ensures asked <==> name !in old(vars)
    {
      asked := name !in vars;
      if !asked {
        return Got(vars[name]), asked;
      }
      if answer.Got? {
        vars := vars[name := answer.bytes];
      }
      v := answer;
    }

    method Body(answer: Answer) returns (v: Answer, asked: bool)
      requires Valid()
      modifies this`body
      ensures Valid() && Model() == Step(old(Model()), ReadBody(answer))
      ensures SawBytes(v) == Observe(old(Model()), ReadBody(answer))
      ensures asked <==> !Cached(old(body))
    {
      if body.Some? && |body.value| > 0 {
        return Got(body), false;
      }
      if answer.Got? {
        body := answer.bytes;
      }
      v, asked := answer, true;
      assert Model().body == if answer.Got? then answer.bytes else old(Model()).body;
    }

    method SetBody(b: Option<Bytes>)
      requires Valid()
      modifies this`body
      ensures Valid() && Model() == Step(old(Model()), RequestModel.SetBody(b))
    {
      body := b;
    }

    /** The calls through the header object. */
    method PerformHeader(op: Op) returns (obs: Obs)
      requires Valid() && (op.OpenHeader? || op.GetHeader? || op.SetHeader? || op.DelHeader?)
      modifies Repr()
      ensures Valid() && Model() == Step(old(Model()), op) && obs == Observe(old(Model()), op)
      ensures fresh(Repr() - old(Repr()))
    {
      obs := Nothing;
      var h := OpenHeader();
      match op
      case GetHeader(key) =>
        var v := h.Get(key);
        obs := SawHeader(v);
      case SetHeader(key, value) =>
        h.Set(key, value);
      case DelHeader(key) =>
        h.Del(key);
      case _ =>
    }

    /** The calls through the argument map. */
    method PerformArgs(op: Op) returns (obs: Obs)
      requires Valid()
      requires op.OpenArgs? || op.PutArg? || op.DropArg?
      modifies this`args, this`rawArgs
      ensures Valid() && Model() == Step(old(Model()), op) && obs == Observe(old(Model()), op)
    {
      obs := Nothing;
      match op
      case OpenArgs =>
        var a := OpenArgs();
        obs := SawArgs(a);
      case PutArg(name, values) =>
        var a := OpenArgs();
        args := Some(a[name := values]);
      case DropArg(name) =>
        var a := OpenArgs();
        args := Some(a - {name});
    }

    /** The calls through the response header map. */
    method PerformRespHeader(op: Op) returns (obs: Obs)
      requires Valid()
      requires op.OpenRespHeader? || op.PutRespHeader? || op.DropRespHeader?
      modifies this`respHdr
      ensures Valid() && Model() == Step(old(Model()), op) && obs == Observe(old(Model()), op)
    {
      obs := Nothing;
      var h := OpenRespHeader();
      match op
      case PutRespHeader(name, values) =>
        respHdr := Some(h[name := values]);
      case DropRespHeader(name) =>
        respHdr := Some(h - {name});
      case _ =>
        obs := SawRespHeader(h);
    }

    /** The calls on the plain fields. */
    method PerformFields(op: Op) returns (obs: Obs)
      requires Valid()
      requires op.ReadPath? || op.SetPath? || op.ReadVar? || op.ReadBody? || op.SetBody?
      modifies this`path, this`vars, this`body
      ensures Valid() && Model() == Step(old(Model()), op) && obs == Observe(old(Model()), op)
    {
      obs := Nothing;
      match op
      case ReadPath =>
        var p := Path();
        obs := SawPath(p);
      case SetPath(p) =>
        SetPath(p);
      case ReadVar(name, answer) =>
        var v, _ := Var(name, answer);
        obs := SawBytes(v);
      case ReadBody(answer) =>
        var v, _ := Body(answer);
        obs := SawBytes(v);
      case SetBody(b) =>
        SetBody(b);
    }

    /** Any plugin call. */
    method Perform(op: Op) returns (obs: Obs)
      requires Valid()
      modifies Repr()
      ensures Valid() && Model() == Step(old(Model()), op) && obs == Observe(old(Model()), op)
      ensures fresh(Repr() - old(Repr()))
    {
      if op.OpenHeader? || op.GetHeader? || op.SetHeader? || op.DelHeader? {
        obs := PerformHeader(op);
      } else if op.ReadPath? || op.SetPath? || op.ReadVar? || op.ReadBody? || op.SetBody? {
        obs := PerformFields(op);
      } else if op.OpenArgs? || op.PutArg? || op.DropArg? {
        obs := PerformArgs(op);
      } else {
        obs := PerformRespHeader(op);
      }
    }

    /** A plugin's run: any sequence of calls. */
    method PerformAll(ops: seq<Op>) returns (seen: seq<Obs>)
      requires Valid()
      modifies Repr()
      ensures Valid() && Model() == Run(old(Model()), ops)
      ensures seen == Observations(old(Model()), ops)
      ensures fresh(Repr() - old(Repr()))
    {
      seen := [];
      for i := 0 to |ops|
        invariant Valid() && Model() == Run(old(Model()), ops[..i])
        invariant seen == Observations(old(Model()), ops[..i])
        invariant fresh(Repr() - old(Repr()))
      {
        assert ops[..i + 1][..i] == ops[..i];
        var obs := Perform(ops[i]);
        seen := seen + [obs];
      }
      assert ops[..|ops|] == ops;
    }

    /** FetchChanges: nothing if nothing was touched, else the diff of every touched part. */
    method FetchChanges() returns (reply: Option<Rewrite>)
      requires Valid()
      ensures IsReply(Model(), reply)
    {
      if path.None? && hdr == null && args.None? && respHdr.None? && body.None? {
        return None;
      }
      var headers, respHeaders, argEntries := None, None, None;
      if hdr != null {
        var es := Header.HeaderBuild(hdr);
        es := BuildVector(es);
        headers := Some(es);
      }
      if respHdr.Some? {
        var es := ListHeader(respHdr.value);
        es := BuildVector(es);
        respHeaders := Some(es);
      }
      if args.Some? {
        ParseArgsNoEmptyList(r.args);
        var es := ArgsDiff(rawArgs, args.value);
        es := BuildVector(es);
        argEntries := Some(es);
      }
      reply := Some(Rewrite(path, body, headers, respHeaders, argEntries));
    }

    /** ReuseRequest's Reset. */
    method Reset()
      modifies this
      ensures Valid() && Repr() == {this} && Model() == RequestModel.Reset(old(Model()))
    {
      path, hdr, args := None, null, None;
      vars, body, respHdr := map[], None, None;
    }

    /** CreateRequest on an object taken from the pool. */
    method Renew(raw: RawReq)
      requires Valid() && hdr == null && args.None?
      modifies this`r
      ensures Valid() && Repr() == old(Repr()) && Model() == Create(old(Model()), raw)
    {
      r := raw;
    }
  }
}
