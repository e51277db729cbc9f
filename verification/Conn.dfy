/** The connection loop over a socket that splits reads and writes arbitrarily and may fail. */
module Conn {
  import opened Basics
  import opened Frames
  import opened Session

  datatype IoErr = Eof | Broken

  /** A stream socket, as net.Conn promises it. `input` is what the peer has still to deliver
      before it closes, `output` what this side has delivered. A failure is permanent. */
  class Socket {
    var input: Bytes
    var output: Bytes
    var broken: bool

    constructor (incoming: Bytes)
      ensures input == incoming && output == [] && !broken
    {
      input, output, broken := incoming, [], false;
    }

    /** Read(b[l:]): some bytes, at least one if there is no error. */
    method Read(b: array<Byte>, l: nat) returns (tmp: nat, err: Option<IoErr>)
      requires l < b.Length
      modifies this, b
      ensures output == old(output) && (old(broken) ==> broken)
      ensures tmp <= |old(input)| && l + tmp <= b.Length
      ensures b[..l] == old(b[..l])
      ensures b[l..l + tmp] == old(input)[..tmp] && input == old(input)[tmp..]
      ensures err.None? ==> tmp > 0 && !broken
      ensures err.Some? ==> broken || (old(input) == [] && tmp == 0)
    {
      var fault: bool := *;
      if broken || fault {
        broken := true;
        tmp :| 0 <= tmp <= |input| && tmp <= b.Length - l;
        err := Some(Broken);
      } else if input == [] {
        return 0, Some(Eof);
      } else {
        assert 1 <= |input| && 1 <= b.Length - l;
        tmp :| 1 <= tmp <= |input| && tmp <= b.Length - l;
        err := None;
      }
      forall i | 0 <= i < tmp {
        b[l + i] := input[i];
      }
      assert b[..l] == old(b[..l]);
      assert b[l..l + tmp] == input[..tmp];
      input := input[tmp..];
    }

    /** Write(b): a prefix of `b`, all of it or not. */
    method Write(b: Bytes) returns (tmp: nat, err: Option<IoErr>)
      requires b != []
      modifies this
      ensures input == old(input)
      ensures tmp <= |b| && output == old(output) + b[..tmp]
      ensures err.None? ==> tmp > 0 && !broken
      ensures err.Some? ==> broken
      ensures old(broken) ==> broken && tmp == 0
    {
      var fault: bool := *;
      if broken {
        tmp, err := 0, Some(Broken);
      } else if fault {
        broken := true;
        tmp :| 0 <= tmp <= |b|;
        err := Some(Broken);
      } else {
        assert 1 <= |b|;
        tmp :| 1 <= tmp <= |b|;
        err := None;
      }
      output := output + b[..tmp];
    }
  }

  /** ReadErr: true when the caller must give up. */
  predicate ReadErr(n: nat, err: Option<IoErr>, required: nat) {
    0 < n < required || err.Some?
  }

  /** ReadBytes. Without error at least `n` bytes were moved in order, exactly `n` for a buffer
      of that size; with one, the count is exactly the prefix that was moved. */
  method ReadBytes(c: Socket, b: array<Byte>, n: nat) returns (l: nat, err: Option<IoErr>)
    requires n <= b.Length
    modifies c, b
    ensures l <= b.Length && l <= |old(c.input)|
    ensures b[..l] == old(c.input)[..l] && c.input == old(c.input)[l..]
    ensures c.output == old(c.output)
    ensures old(c.broken) ==> c.broken
    ensures err.None? ==> l >= n && c.broken == old(c.broken) && (n > 0 ==> !c.broken)
    ensures err.Some? && !c.broken ==> l < n && c.input == []
  {
    l := 0;
    while l < n
      invariant l <= b.Length && l <= |old(c.input)|
      invariant b[..l] == old(c.input)[..l] && c.input == old(c.input)[l..]
      invariant c.output == old(c.output)
      invariant c.broken == old(c.broken) && (l > 0 ==> !c.broken)
      decreases n - l
    {
      var tmp, e := c.Read(b, l);
      assert b[..l + tmp] == b[..l] + b[l..l + tmp];
      assert old(c.input)[..l + tmp] == old(c.input)[..l] + old(c.input)[l..][..tmp];
      l := l + tmp;
      if e.Some? {
        return l, e;
      }
    }
    err := None;
  }

  /** WriteBytes: the same for the other direction. */
  method WriteBytes(c: Socket, b: Bytes, n: nat) returns (l: nat, err: Option<IoErr>)
    requires n <= |b|
    modifies c
    ensures l <= |b| && c.output == old(c.output) + b[..l] && c.input == old(c.input)
    ensures old(c.broken) ==> c.broken
    ensures old(c.broken) && n > 0 ==> l == 0 && err.Some?
    ensures err.None? ==> l >= n && c.broken == old(c.broken)
    ensures err.Some? ==> c.broken
  {
    l := 0;
    while l < n
      invariant l <= |b| && c.output == old(c.output) + b[..l] && c.input == old(c.input)
      invariant c.broken == old(c.broken) && (l > 0 ==> !c.broken)
      decreases n - l
    {
      var tmp, e := c.Write(b[l..]);
      assert b[..l + tmp] == b[..l] + b[l..][..tmp];
      l := l + tmp;
      if e.Some? {
        return l, e;
      }
    }
    err := None;
  }

  /** The reading half that handleConn and askExtraInfo share: a header into the reused buffer,
      then that many bytes. Against ParseFrame: a frame is returned exactly when the stream
      holds a complete one, whatever the reads' sizes and the buffer's old contents. */
  method ReadFrame(c: Socket, header: array<Byte>) returns (r: Option<Frame>)
    requires header.Length == HEADER_LEN
    modifies c, header
    ensures c.output == old(c.output)
    ensures old(c.broken) ==> c.broken
    ensures |c.input| <= |old(c.input)|
    ensures c.broken ==> r.None?
    ensures !c.broken ==>
              match ParseFrame(old(c.input))
              case None => r.None? && c.input == []
              case Some((f, rest)) => r == Some(f) && c.input == rest
  {
    ghost var stream := c.input;
    var n, err := ReadBytes(c, header, HEADER_LEN);
    if ReadErr(n, err, HEADER_LEN) {
      return None;
    }
    assert header[..HEADER_LEN] == header[..] == stream[..HEADER_LEN];
    var ty := header[0];
    header[0] := 0;
    assert header[..] == stream[..HEADER_LEN][0 := 0];
    var length := Uint32(header[..]);
    var buf := new Byte[length];
    n, err := ReadBytes(c, buf, length);
    assert |stream[HEADER_LEN..]| == |stream| - HEADER_LEN;
    if ReadErr(n, err, length) {
      return None;
    }
    assert buf[..length] == buf[..];
    assert stream[HEADER_LEN..][..length] == stream[HEADER_LEN..HEADER_LEN + length];
    assert stream[HEADER_LEN..][length..] == stream[HEADER_LEN + length..];
    r := Some(Frame(ty, buf[..]));
  }

  /** Bytes delivered since `start` out of `total`: `sent` while the socket holds, otherwise
      some prefix. */
  ghost predicate Delivered(output: Bytes, broken: bool, start: Bytes, sent: Bytes, total: Bytes) {
    && start <= output <= start + total
    && (!broken ==> output == start + sent)
  }

  /** The writing half: the frame is delivered whole, or a prefix of it on a broken socket. */
  method WriteFrame(c: Socket, header: array<Byte>, f: Frame) returns (ok: bool)
    requires header.Length == HEADER_LEN
    modifies c, header
    ensures c.input == old(c.input)
    ensures ok <==> !c.broken
    ensures Delivered(c.output, c.broken, old(c.output), EncodeFrame(f), EncodeFrame(f))
    ensures old(c.broken) ==> c.broken && c.output == old(c.output)
  {
    var size := |f.data|;
    var be := PutUint32(size);
    forall i | 0 <= i < HEADER_LEN {
      header[i] := be[i];
    }
    header[0] := f.ty;
    assert header[..] == EncodeHeader(f.ty, size);
    ghost var head, before := header[..], c.output;
    var n, err := WriteBytes(c, header[..], HEADER_LEN);
    PrefixOfFrame(before, head, f.data, n, 0);
    if err.Some? {
      return false;
    }
    n, err := WriteBytes(c, f.data, size);
    PrefixOfFrame(before, head, f.data, HEADER_LEN, n);
    ok := err.None?;
  }

  lemma PrefixOfFrame(before: Bytes, head: Bytes, data: Bytes, i: nat, j: nat)
    requires i <= |head| && j <= |data| && (j > 0 ==> i == |head|)
    ensures before + head[..i] + data[..j] <= before + (head + data)
    ensures before + head[..i] <= before + (head + data)
  {
  }

  /** askExtraInfo on the wire: one frame out, one frame in, on the same stream. */
  method AskExtraInfo(c: Socket, header: array<Byte>, info: Bytes) returns (a: Answer, ghost got: Option<Frame>)
    requires header.Length == HEADER_LEN
    modifies c, header
    ensures old(c.broken) ==> c.broken && c.output == old(c.output)
    ensures |c.input| <= |old(c.input)|
    ensures c.broken ==> a == Closed
    ensures var enc := EncodeFrame(Frame(RPC_EXTRA_INFO, info));
            Delivered(c.output, c.broken, old(c.output), enc, enc)
    ensures a == if got.None? then Closed else Got(got.value.data)
    ensures !c.broken ==>
              match ParseFrame(old(c.input))
              case None => got.None? && c.input == []
              case Some((f, rest)) => got == Some(f) && c.input == rest
  {
    var ok := WriteFrame(c, header, Frame(RPC_EXTRA_INFO, info));
    if !ok {
      return Closed, None;
    }
    var r := ReadFrame(c, header);
    a, got := if r.None? then Closed else Got(r.value.data), r;
  }

  /** Where the connection stands against its specification `all`: in step while the socket
      holds, otherwise stopped somewhere before the end. */
  ghost predicate InStep(output: Bytes, broken: bool, start: Bytes, log: seq<Event>, all: seq<Event>,
                         ahead: seq<Event>) {
    && log <= all
    && (!broken ==> all == log + ahead)
    && Delivered(output, broken, start, OutBytes(log), OutBytes(all))
  }

  lemma DeliveredMore(start: Bytes, sent: Bytes, now: Bytes, broken: bool, done: Bytes, more: Bytes, rest: Bytes)
    requires Delivered(now, broken, start + sent, done, more)
    ensures Delivered(now, broken, start, sent + done, sent + more + rest)
  {
  }

  lemma OutBytesOne(e: Event)
    ensures OutBytes([e]) == if e.AskOut? || e.ReplyOut? then EncodeFrame(e.f) else []
  {
    assert Outgoing([e][1..]) == [];
    if e.AskOut? || e.ReplyOut? {
      assert Outgoing([e]) == [e.f];
      assert EncodeAll([e.f][1..]) == [];
      assert EncodeAll([e.f]) == EncodeFrame(e.f) + [];
    }
  }

  /** Writing a frame keeps in step. */
  lemma WroteStep(start: Bytes, was: Bytes, now: Bytes, broken: bool, log: seq<Event>, e: Event, ahead: seq<Event>)
    requires e.AskOut? || e.ReplyOut?
    requires was == start + OutBytes(log)
    requires Delivered(now, broken, was, EncodeFrame(e.f), EncodeFrame(e.f))
    ensures InStep(now, broken, start, if broken then log else log + [e], log + ([e] + ahead), ahead)
  {
    OutBytesOne(e);
    ServedStep(start, was, now, broken, log, if broken then [] else [e], [e], ahead);
  }

  /** So does reading one: nothing is written. */
  lemma ReadStep(start: Bytes, output: Bytes, log: seq<Event>, e: Event, ahead: seq<Event>)
    requires e.Dispatch? || e.AnswerIn?
    requires output == start + OutBytes(log)
    ensures InStep(output, false, start, log + [e], log + ([e] + ahead), ahead)
  {
    OutBytesOne(e);
    assert output + [] == output;
    ServedStep(start, output, output, false, log, [e], [e], ahead);
  }

  /** And so does any run of events. */
  lemma ServedStep(start: Bytes, was: Bytes, now: Bytes, broken: bool,
                   log: seq<Event>, done: seq<Event>, served: seq<Event>, ahead: seq<Event>)
    requires was == start + OutBytes(log)
    requires InStep(now, broken, was, done, served, [])
    ensures InStep(now, broken, start, log + done, log + (served + ahead), ahead)
  {
    assert log + (served + ahead) == (log + served) + ahead;
    OutBytesAppend(log, done);
    OutBytesAppend(log, served);
    OutBytesAppend(log + served, ahead);
    DeliveredMore(start, OutBytes(log), now, broken, OutBytes(done), OutBytes(served), OutBytes(ahead));
  }

  /** A handler's run over the socket. */
  method RunHandler(h: Handler, f: Frame, c: Socket) returns (answers: seq<Answer>, ghost log: seq<Event>)
    requires KnownType(f.ty) && !c.broken
    modifies c
    ensures |c.input| <= |old(c.input)|
    ensures var s := Serve(h, f, [], old(c.input));
            && InStep(c.output, c.broken, old(c.output), log, s.events, [])
            && (!c.broken ==> answers == s.answers && c.input == s.rest)
  {
    var header := new Byte[HEADER_LEN](_ => 0);
    answers, log := [], [];
    ghost var s := Serve(h, f, [], c.input);
    ghost var start := c.output;
    while h.ask(f, answers).Some?
      invariant |c.input| <= |old(c.input)|
      invariant
        var ahead := Serve(h, f, answers, c.input);
        && InStep(c.output, c.broken, start, log, s.events, ahead.events)
        && (!c.broken ==> ahead.answers == s.answers && ahead.rest == s.rest)
      decreases |c.input|, h.patience(f, answers)
    {
      ghost var was, wasBroken, stream := c.output, c.broken, c.input;
      var info := h.ask(f, answers).value;
      var a, got := AskExtraInfo(c, header, info);
      if !wasBroken {
        log := AskStep(h, f, answers, stream, start, was, c.output, c.broken, log, got);
      }
      answers := answers + [a];
    }
  }

  /** One ExtraInfo exchange against Serve. */
  lemma AskStep(h: Handler, f: Frame, answers: seq<Answer>, stream: Bytes, start: Bytes, was: Bytes, now: Bytes,
                broken: bool, log: seq<Event>, got: Option<Frame>) returns (log': seq<Event>)
    requires KnownType(f.ty) && h.ask(f, answers).Some?
    requires var enc := EncodeFrame(Frame(RPC_EXTRA_INFO, h.ask(f, answers).value));
             Delivered(now, broken, was, enc, enc)
    requires was == start + OutBytes(log)
    requires !broken ==> got == if ParseFrame(stream).None? then None else Some(ParseFrame(stream).value.0)
    ensures
      var here, x := Serve(h, f, answers, stream), Take(stream);
      var ahead := Serve(h, f, answers + [x.a], x.rest);
      && InStep(now, broken, start, log', log + here.events, ahead.events)
      && ahead.answers == here.answers && ahead.rest == here.rest
  {
    var x := Take(stream);
    var ask := AskOut(Frame(RPC_EXTRA_INFO, h.ask(f, answers).value));
    var ahead := Serve(h, f, answers + [x.a], x.rest).events;
    WroteStep(start, was, now, broken, log, ask, x.got + ahead);
    if broken {
      log' := log;
    } else {
      TookStep(start, now, log + [ask], x.got, ahead);
      assert log + ([ask] + (x.got + ahead)) == (log + [ask]) + (x.got + ahead);
      log' := log + [ask] + x.got;
    }
  }

  lemma TookStep(start: Bytes, now: Bytes, log: seq<Event>, got: seq<Event>, ahead: seq<Event>)
    requires got == [] || (|got| == 1 && got[0].AnswerIn?)
    requires now == start + OutBytes(log)
    ensures InStep(now, false, start, log + got, log + (got + ahead), ahead)
  {
    if got == [] {
      assert log + got == log && got + ahead == ahead;
      OutBytesAppend(log, ahead);
    } else {
      assert got == [got[0]];
      ReadStep(start, now, log, got[0], ahead);
    }
  }

  /** dispatchRPC and the reply to one call. */
  method ServeCall(h: Handler, f: Frame, c: Socket, header: array<Byte>) returns (ok: bool, ghost done: seq<Event>)
    requires header.Length == HEADER_LEN && !c.broken
    modifies c, header
    ensures ok <==> !c.broken
    ensures |c.input| <= |old(c.input)|
    ensures InStep(c.output, c.broken, old(c.output), done, CallEvents(h, f, old(c.input)), [])
    ensures ok ==> c.input == Serve(h, f, [], old(c.input)).rest
  {
    ghost var start, s := c.output, Serve(h, f, [], c.input);
    var answers: seq<Answer> := [];
    done := [];
    if KnownType(f.ty) {
      answers, done := RunHandler(h, f, c);
    }
    var reply := Reply(h, f, answers);
    ghost var was, wasBroken := c.output, c.broken;
    ok := WriteFrame(c, header, reply);
    if wasBroken {
      OutBytesAppend(s.events, [ReplyOut(Reply(h, f, s.answers))]);
    } else {
      assert done == s.events;
      WroteStep(start, was, c.output, c.broken, done, ReplyOut(reply), []);
      assert [ReplyOut(reply)] + [] == [ReplyOut(reply)];
      done := if ok then done + [ReplyOut(reply)] else done;
    }
  }

  /** handleConn. For every split of reads and writes and every service, the run on a socket
      that holds is exactly the trace the stream determines; on one that fails, the frames
      dispatched and the bytes written are a prefix of it. */
  method HandleConn(hs: Service, c: Socket) returns (ghost log: seq<Event>)
    requires !c.broken
    modifies c
    ensures InStep(c.output, c.broken, old(c.output), log, Trace(hs, 0, old(c.input)), [])
    ensures !c.broken ==> c.input == []
  {
    var header := new Byte[HEADER_LEN](_ => 0);
    log := [];
    var k: nat := 0;
    ghost var start, all := c.output, Trace(hs, 0, c.input);
    while true
      invariant !c.broken
      invariant InStep(c.output, c.broken, start, log, all, Trace(hs, k, c.input))
      decreases |c.input|
    {
      ghost var stream := c.input;
      var r := ReadFrame(c, header);
      if r.None? {
        break;
      }
      ghost var was, rest := c.output, c.input;
      var ok, done := ServeCall(hs(k), r.value, c, header);
      log := CallStep(hs, k, stream, r.value, rest, start, was, c.output, c.broken, log, done);
      if !ok {
        break;
      }
      k := k + 1;
    }
  }

  lemma CallStep(hs: Service, k: nat, stream: Bytes, f: Frame, rest: Bytes, start: Bytes, was: Bytes, now: Bytes,
                 broken: bool, log: seq<Event>, done: seq<Event>) returns (log': seq<Event>)
    requires ParseFrame(stream) == Some((f, rest))
    requires was == start + OutBytes(log)
    requires InStep(now, broken, was, done, CallEvents(hs(k), f, rest), [])
    ensures
      var ahead := Trace(hs, k + 1, Serve(hs(k), f, [], rest).rest);
      InStep(now, broken, start, log', log + Trace(hs, k, stream), ahead)
  {
    var call := CallEvents(hs(k), f, rest);
    var ahead := Trace(hs, k + 1, Serve(hs(k), f, [], rest).rest);
    ReadStep(start, was, log, Dispatch(f), call + ahead);
    ServedStep(start, was, now, broken, log + [Dispatch(f)], done, call, ahead);
    assert log + Trace(hs, k, stream) == (log + [Dispatch(f)]) + (call + ahead);
    log' := log + [Dispatch(f)] + done;
  }
}
