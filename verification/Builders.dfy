/** Who owns which flatbuffers builder (internal/util/pool.go and its users), over every
    interleaving of any number of connections. */
module Builders {
  import opened Basics

  type Id = nat // a builder
  type ConnId = nat

  // ---- the pool ----

  /** The pool, how many builders were ever made, and what each holds. */
  datatype Shelf = Shelf(pool: multiset<Id>, made: nat, data: map<Id, Bytes>)

  function DataOf(h: Shelf, b: Id): Bytes {
    if b in h.data then h.data[b] else []
  }

  /** GetBuilder; `reuse` is the pool's choice, if it has that member. */
  function Take(h: Shelf, reuse: Option<Id>): (Shelf, Id) {
    if reuse.Some? && reuse.value in h.pool then
      (h.(pool := h.pool - multiset{reuse.value}), reuse.value)
    else
      (h.(made := h.made + 1, data := h.data[h.made := []]), h.made)
  }

  /** PutBuilder. */
  function Put(h: Shelf, b: Id): Shelf {
    h.(pool := h.pool + multiset{b}, data := h.data[b := []])
  }

  class Builder {
    ghost const id: Id
    var data: Bytes

    constructor (ghost id: Id)
      ensures data == [] && this.id == id
    {
      data := [];
      this.id := id;
    }
  }

  /** Builders are numbered in the order they were made; both pools have the same ones, as often. */
  ghost predicate SamePool(pool: multiset<Id>, free: multiset<Builder>, made: seq<Builder>) {
    && (forall b :: b in free ==> b in made)
    && (forall i :: i in pool ==> i < |made|)
    && (forall i :: 0 <= i < |made| ==> made[i].id == i && pool[i] == free[made[i]])
  }

  lemma SamePoolTake(pool: multiset<Id>, free: multiset<Builder>, made: seq<Builder>, b: Builder)
    requires SamePool(pool, free, made) && b in free
    ensures b.id in pool && SamePool(pool - multiset{b.id}, free - multiset{b}, made)
  {
    var k :| 0 <= k < |made| && made[k] == b;
    assert pool[k] == free[b];
    assert forall i :: 0 <= i < |made| && i != k ==> made[i] != b;
  }

  lemma SamePoolPut(pool: multiset<Id>, free: multiset<Builder>, made: seq<Builder>, b: Builder)
    requires SamePool(pool, free, made) && b in made
    ensures SamePool(pool + multiset{b.id}, free + multiset{b}, made)
  {
    var k :| 0 <= k < |made| && made[k] == b;
    assert forall i :: 0 <= i < |made| && i != k ==> made[i] != b;
  }

  /** builderPool: sync.Pool hands out one of its members or a new object. */
  class BuilderPool {
    var free: multiset<Builder>
    ghost var made: seq<Builder>

    ghost predicate Models(h: Shelf)
      reads this, made
    {
      && SamePool(h.pool, free, made)
      && h.made == |made|
      && (forall i :: 0 <= i < |made| ==> DataOf(h, i) == made[i].data)
    }

    constructor ()
      ensures Models(Shelf(multiset{}, 0, map[]))
    {
      free := multiset{};
      made := [];
    }

    method GetBuilder(ghost h: Shelf) returns (b: Builder, ghost reuse: Option<Id>)
      requires Models(h)
      modifies this
      ensures Models(Take(h, reuse).0)
      ensures b.id == Take(h, reuse).1 && b in made
      ensures old(made) <= made
    {
      var again: bool := *;
      if again && |free| > 0 {
        b := Reuse(h);
        reuse := Some(b.id);
      } else {
        b := Make(h);
        reuse := None;
      }
    }

    method Reuse(ghost h: Shelf) returns (b: Builder)
      requires Models(h) && |free| > 0
      modifies this
      ensures b in made && made == old(made)
      ensures b.id in h.pool && Models(Take(h, Some(b.id)).0)
    {
      b :| b in free;
      SamePoolTake(h.pool, free, made, b);
      free := free - multiset{b};
    }

    method Make(ghost h: Shelf) returns (b: Builder)
      requires Models(h)
      modifies this
      ensures fresh(b) && b.id == h.made && made == old(made) + [b]
      ensures Models(Take(h, None).0)
    {
      b := new Builder(|made|);
      assert b !in made;
      assert b !in free && h.made !in h.pool;
      made := made + [b];
      ghost var t := Take(h, None).0;
      assert forall i :: 0 <= i < h.made ==> DataOf(t, i) == DataOf(h, i);
    }

    method PutBuilder(ghost h: Shelf, b: Builder)
      requires Models(h) && b in made
      modifies this, b
      ensures Models(Put(h, b.id)) && made == old(made)
    {
      SamePoolPut(h.pool, free, made, b);
      b.data := [];
      free := free + multiset{b};
    }
  }

  // ---- the connections ----

  /** Where a connection's goroutine is. While it uses a builder `B` it fills it, for an extra
      information request or for the reply, and then writes it in pieces, `done` bytes so far.
      The four bytes before each message come from a buffer that is no builder. */
  datatype Phase<B> =
    | Idle // handleConn waits for a frame
    | Working // in a handler
    | Using(b: B, ask: bool, done: nat)
    | Closed

  datatype State = State(
    shelf: Shelf,
    conns: map<ConnId, Phase<Id>>,
    dropped: set<Id>, // left to the garbage collector
    wire: map<ConnId, Bytes>) // what each connection wrote

  const INIT := State(Shelf(multiset{}, 0, map[]), map[], {}, map[])

  datatype Event =
    | Call(c: ConnId)
    | Start(c: ConnId, reuse: Option<Id>, ask: bool) // GetBuilder
    | Fill(c: ConnId, bytes: Bytes)
    | Write(c: ConnId, n: nat) // one turn of WriteBytes
    | EndAsk(c: ConnId, put: bool) // answered or failed; Var and ReadBody put the builder back, Body does not
    | Reject(c: ConnId) // checkIfDataTooLarge, before the report is built
    | EndCall(c: ConnId)
    | Break(c: ConnId) // a failed write or a panic
    | Collect(b: Id) // the garbage collector empties the pool as it likes

  function PhaseOf(s: State, c: ConnId): Phase<Id> {
    if c in s.conns then s.conns[c] else Idle
  }

  function WireOf(s: State, c: ConnId): Bytes {
    if c in s.wire then s.wire[c] else []
  }

  function HeldBy(s: State, c: ConnId): Option<Id> {
    var p := PhaseOf(s, c);
    if p.Using? then Some(p.b) else None
  }

  /** The next bytes of `data` that one Write takes. */
  function Piece(data: Bytes, done: nat, n: nat): Bytes {
    if done + n <= |data| then data[done..done + n] else if done <= |data| then data[done..] else []
  }

  function At(s: State, c: ConnId, p: Phase<Id>): State {
    s.(conns := s.conns[c := p])
  }

  function Acquire(s: State, c: ConnId, reuse: Option<Id>, ask: bool): State {
    var (h, b) := Take(s.shelf, reuse);
    At(s.(shelf := h), c, Using(b, ask, 0))
  }

  /** The builder `c` holds goes back to the pool. */
  function Release(s: State, c: ConnId, p: Phase<Id>): State
    requires HeldBy(s, c).Some?
  {
    At(s.(shelf := Put(s.shelf, HeldBy(s, c).value)), c, p)
  }

  /** The builder `c` holds is forgotten. */
  function Abandon(s: State, c: ConnId, p: Phase<Id>): State
    requires HeldBy(s, c).Some?
  {
    At(s.(dropped := s.dropped + {HeldBy(s, c).value}), c, p)
  }

  function Filled(s: State, c: ConnId, bytes: Bytes): State
    requires HeldBy(s, c).Some?
  {
    var b := HeldBy(s, c).value;
    s.(shelf := s.shelf.(data := s.shelf.data[b := DataOf(s.shelf, b) + bytes]))
  }

  function Written(s: State, c: ConnId, n: nat): State
    requires HeldBy(s, c).Some?
  {
    var p := PhaseOf(s, c);
    var piece := Piece(DataOf(s.shelf, p.b), p.done, n);
    At(s.(wire := s.wire[c := WireOf(s, c) + piece]), c, p.(done := p.done + |piece|))
  }

  function Collected(s: State, b: Id): State {
    s.(shelf := s.shelf.(pool := s.shelf.pool - multiset{b}), dropped := s.dropped + {b})
  }

  function Step(s: State, e: Event): State {
    var p := if e.Collect? then Idle else PhaseOf(s, e.c);
    match e
    case Collect(b) => if b in s.shelf.pool then Collected(s, b) else s
    case Call(c) => if p.Idle? then At(s, c, Working) else s
    case Start(c, reuse, ask) => if p.Working? then Acquire(s, c, reuse, ask) else s
    case Fill(c, bytes) => if p.Using? && p.done == 0 then Filled(s, c, bytes) else s
    case Write(c, n) => if p.Using? then Written(s, c, n) else s
    case EndAsk(c, put) =>
      if p.Using? && p.ask then if put then Release(s, c, Working) else Abandon(s, c, Working) else s
    case Reject(c) => if p.Using? && !p.ask && p.done == 0 then Release(s, c, Working) else s
    case EndCall(c) =>
      if p.Using? && !p.ask && p.done == |DataOf(s.shelf, p.b)| then Release(s, c, Idle) else s
    case Break(c) => if p.Using? then Abandon(s, c, Closed) else At(s, c, Closed)
  }

  function Run(es: seq<Event>): State {
    if es == [] then INIT else Step(Run(es[..|es| - 1]), es[|es| - 1])
  }

  // ---- ownership ----

  /** No connection but `c` holds `b`. */
  ghost predicate OnlyBy(s: State, c: ConnId, b: Id) {
    forall d: ConnId :: d != c ==> HeldBy(s, d) != Some(b)
  }

  ghost predicate Held(s: State, c: ConnId, b: Id) {
    b < s.shelf.made && b !in s.shelf.pool && b !in s.dropped && OnlyBy(s, c, b)
  }

  /** In exactly one place each: the pool at most once, one connection, or dropped. */
  ghost predicate Owned(s: State) {
    && (forall b :: b in s.shelf.pool ==> b < s.shelf.made && s.shelf.pool[b] == 1 && b !in s.dropped)
    && (forall b :: b in s.dropped ==> b < s.shelf.made)
    && (forall c: ConnId :: HeldBy(s, c).Some? ==> Held(s, c, HeldBy(s, c).value))
  }

  /** Whatever GetBuilder can return is empty. */
  ghost predicate Emptied(h: Shelf) {
    forall b :: b in h.pool || b >= h.made ==> DataOf(h, b) == []
  }

  ghost predicate IsHeld(s: State, b: Id) {
    exists c: ConnId :: HeldBy(s, c) == Some(b)
  }

  /** Every builder ever made is somewhere. */
  ghost predicate Accounted(s: State) {
    forall b: nat :: b < s.shelf.made ==> b in s.shelf.pool || IsHeld(s, b) || b in s.dropped
  }

  ghost predicate Good(s: State) {
    Owned(s) && Emptied(s.shelf) && Accounted(s)
  }

  /** What GetBuilder returns belongs to nobody and is empty. */
  lemma TakeFacts(s: State, reuse: Option<Id>)
    requires Owned(s) && Emptied(s.shelf)
    ensures
      var (h, b) := Take(s.shelf, reuse);
      && b < h.made && b !in h.pool && b !in s.dropped && !IsHeld(s, b) && Emptied(h)
      && (forall x :: x in h.pool <==> x in s.shelf.pool && x != b)
      && (forall x :: x in h.pool ==> h.pool[x] == s.shelf.pool[x])
      && (h.made == s.shelf.made || (h.made == s.shelf.made + 1 && b == s.shelf.made))
      && (forall x: Id :: DataOf(h, x) == DataOf(s.shelf, x)) && DataOf(h, b) == []
  {
  }

  /** Only one builder moves in a step. */
  lemma AccountedChange(s: State, t: State, c: ConnId, b: Id)
    requires Accounted(s)
    requires forall d: ConnId :: d != c ==> HeldBy(t, d) == HeldBy(s, d)
    requires forall x :: x in s.shelf.pool && x != b ==> x in t.shelf.pool
    requires s.dropped <= t.dropped
    requires t.shelf.made == s.shelf.made || (t.shelf.made == s.shelf.made + 1 && b == s.shelf.made)
    requires HeldBy(s, c).Some? ==> HeldBy(s, c).value == b
    requires b < t.shelf.made ==> b in t.shelf.pool || b in t.dropped || HeldBy(t, c) == Some(b)
    ensures Accounted(t)
  {
    forall x: nat | x < t.shelf.made && x != b
      ensures x in t.shelf.pool || IsHeld(t, x) || x in t.dropped
    {
      if IsHeld(s, x) {
        var d: ConnId :| HeldBy(s, d) == Some(x);
        assert HeldBy(t, d) == Some(x);
      }
    }
  }

  lemma AcquireGood(s: State, c: ConnId, reuse: Option<Id>, ask: bool)
    requires Good(s) && HeldBy(s, c).None?
    ensures Good(Acquire(s, c, reuse, ask))
  {
    var (h, b) := Take(s.shelf, reuse);
    var t := Acquire(s, c, reuse, ask);
    TakeFacts(s, reuse);
    assert forall d: ConnId :: HeldBy(t, d) == if d == c then Some(b) else HeldBy(s, d);
    AccountedChange(s, t, c, b);
  }

  lemma ReleaseGood(s: State, c: ConnId, p: Phase<Id>)
    requires Good(s) && HeldBy(s, c).Some? && !p.Using?
    ensures Good(Release(s, c, p))
  {
    var b := HeldBy(s, c).value;
    var t := Release(s, c, p);
    assert Held(s, c, b);
    assert forall d: ConnId :: HeldBy(t, d) == if d == c then None else HeldBy(s, d);
    AccountedChange(s, t, c, b);
  }

  lemma AbandonGood(s: State, c: ConnId, p: Phase<Id>)
    requires Good(s) && HeldBy(s, c).Some? && !p.Using?
    ensures Good(Abandon(s, c, p))
  {
    var b := HeldBy(s, c).value;
    var t := Abandon(s, c, p);
    assert Held(s, c, b);
    assert forall d: ConnId :: HeldBy(t, d) == if d == c then None else HeldBy(s, d);
    AccountedChange(s, t, c, b);
  }

  /** Steps that move no builder and write only into one that is held. */
  lemma StayGood(s: State, t: State)
    requires Good(s) && Emptied(t.shelf)
    requires t.shelf.pool == s.shelf.pool && t.shelf.made == s.shelf.made && t.dropped == s.dropped
    requires forall d: ConnId :: HeldBy(t, d) == HeldBy(s, d)
    ensures Good(t)
  {
    assert forall d: ConnId, b :: OnlyBy(s, d, b) ==> OnlyBy(t, d, b);
    assert forall b :: IsHeld(s, b) ==> IsHeld(t, b);
  }

  lemma CollectGood(s: State, b: Id)
    requires Good(s) && b in s.shelf.pool
    ensures Good(Collected(s, b))
  {
    var t := Collected(s, b);
    assert forall d: ConnId :: HeldBy(t, d) == HeldBy(s, d);
    assert forall d: ConnId, x :: OnlyBy(s, d, x) ==> OnlyBy(t, d, x);
    assert forall x :: IsHeld(s, x) ==> IsHeld(t, x);
  }

  lemma FillGood(s: State, c: ConnId, bytes: Bytes)
    requires Good(s) && HeldBy(s, c).Some?
    ensures Good(Filled(s, c, bytes))
  {
    assert Held(s, c, HeldBy(s, c).value);
    StayGood(s, Filled(s, c, bytes));
  }

  lemma StepGood(s: State, e: Event)
    requires Good(s)
    ensures Good(Step(s, e))
  {
    var p := if e.Collect? then Idle else PhaseOf(s, e.c);
    match e
    case Collect(b) =>
      if b in s.shelf.pool {
        CollectGood(s, b);
      }
    case Call(c) => StayGood(s, Step(s, e));
    case Start(c, reuse, ask) =>
      if p.Working? {
        AcquireGood(s, c, reuse, ask);
      }
    case Fill(c, bytes) =>
      if p.Using? && p.done == 0 {
        FillGood(s, c, bytes);
      }
    case Write(c, n) => StayGood(s, Step(s, e));
    case EndAsk(c, put) =>
      if p.Using? && p.ask {
        ReleaseGood(s, c, Working);
        AbandonGood(s, c, Working);
      }
    case Reject(c) =>
      if p.Using? {
        ReleaseGood(s, c, Working);
      }
    case EndCall(c) =>
      if p.Using? {
        ReleaseGood(s, c, Idle);
      }
    case Break(c) =>
      if p.Using? {
        AbandonGood(s, c, Closed);
      } else {
        StayGood(s, Step(s, e));
      }
  }

  lemma {:induction false} RunGood(es: seq<Event>)
    ensures Good(Run(es))
  {
    if es != [] {
      RunGood(es[..|es| - 1]);
      StepGood(Run(es[..|es| - 1]), es[|es| - 1]);
    }
  }

  /** Over every interleaving: no two connections hold the same builder, none is held and in the
      pool, none is in the pool twice, and a builder is empty whenever GetBuilder can return it. */
  lemma ExclusiveOwnership(es: seq<Event>, c: ConnId, d: ConnId)
    ensures
      var s := Run(es);
      && (c != d && HeldBy(s, c).Some? ==> HeldBy(s, c) != HeldBy(s, d))
      && (HeldBy(s, c).Some? ==> HeldBy(s, c).value !in s.shelf.pool)
      && (forall b :: s.shelf.pool[b] <= 1)
      && (forall b :: b in s.shelf.pool ==> DataOf(s.shelf, b) == [])
  {
    RunGood(es);
    var s := Run(es);
    assert HeldBy(s, c).Some? ==> Held(s, c, HeldBy(s, c).value);
    assert forall b :: b in s.shelf.pool || s.shelf.pool[b] == 0;
  }

  /** Conservation over every interleaving: every builder ever made is in the pool, held, or was
      dropped by Body, a broken connection or the collector, and only in one of these. */
  lemma NoneLost(es: seq<Event>, b: Id)
    requires b < Run(es).shelf.made
    ensures
      var s := Run(es);
      var pooled := if b in s.shelf.pool then 1 else 0;
      var held := if IsHeld(s, b) then 1 else 0;
      var dropped := if b in s.dropped then 1 else 0;
      pooled + held + dropped == 1
  {
    RunGood(es);
  }

  // ---- one connection by itself ----

  /** A connection that makes itself a new, private buffer each time. */
  datatype Solo = Solo(phase: Phase<Bytes>, wire: Bytes)

  function SoloStep(x: Solo, e: Event): Solo {
    var p := x.phase;
    match e
    case Collect(_) => x
    case Call(_) => if p.Idle? then x.(phase := Working) else x
    case Start(_, _, ask) => if p.Working? then x.(phase := Using([], ask, 0)) else x
    case Fill(_, bytes) => if p.Using? && p.done == 0 then x.(phase := p.(b := p.b + bytes)) else x
    case Write(_, n) =>
      if !p.Using? then x
      else
        var piece := Piece(p.b, p.done, n);
        Solo(p.(done := p.done + |piece|), x.wire + piece)
    case EndAsk(_, _) => if p.Using? && p.ask then x.(phase := Working) else x
    case Reject(_) => if p.Using? && !p.ask && p.done == 0 then x.(phase := Working) else x
    case EndCall(_) => if p.Using? && !p.ask && p.done == |p.b| then x.(phase := Idle) else x
    case Break(_) => x.(phase := Closed)
  }

  function SoloRun(es: seq<Event>): Solo {
    if es == [] then Solo(Idle, []) else SoloStep(SoloRun(es[..|es| - 1]), es[|es| - 1])
  }

  /** The events of connection `c` itself. */
  function Own(es: seq<Event>, c: ConnId): seq<Event> {
    if es == [] then []
    else
      var e := es[|es| - 1];
      Own(es[..|es| - 1], c) + if !e.Collect? && e.c == c then [e] else []
  }

  /** Connection `c` in the shared system, with the bytes in place of the builder. */
  function Seen(s: State, c: ConnId): Solo {
    var p := PhaseOf(s, c);
    Solo(match p
         case Idle => Idle
         case Working => Working
         case Using(b, ask, done) => Using(DataOf(s.shelf, b), ask, done)
         case Closed => Closed,
         WireOf(s, c))
  }

  lemma SeenKept(s: State, t: State, c: ConnId)
    requires PhaseOf(t, c) == PhaseOf(s, c) && WireOf(t, c) == WireOf(s, c)
    requires HeldBy(s, c).Some? ==> DataOf(t.shelf, HeldBy(s, c).value) == DataOf(s.shelf, HeldBy(s, c).value)
    ensures Seen(t, c) == Seen(s, c)
  {
  }

  /** Only what is in a builder that `c` does not hold changes. */
  lemma OthersData(s: State, e: Event, b: Id)
    requires Good(s) && !e.Collect? && HeldBy(s, e.c) != Some(b)
    ensures DataOf(Step(s, e).shelf, b) == DataOf(s.shelf, b)
  {
    if e.Start? {
      TakeFacts(s, e.reuse);
    }
  }

  lemma OthersPhase(s: State, e: Event, c: ConnId)
    requires e.Collect? || e.c != c
    ensures PhaseOf(Step(s, e), c) == PhaseOf(s, c) && WireOf(Step(s, e), c) == WireOf(s, c)
  {
  }

  /** A step of another connection, or of the collector, changes nothing `c` can see. */
  lemma OthersStep(s: State, e: Event, c: ConnId)
    requires Good(s) && (e.Collect? || e.c != c)
    ensures Seen(Step(s, e), c) == Seen(s, c)
  {
    if HeldBy(s, c).Some? && !e.Collect? {
      assert Held(s, c, HeldBy(s, c).value);
      OthersData(s, e, HeldBy(s, c).value);
    }
    OthersPhase(s, e, c);
    SeenKept(s, Step(s, e), c);
  }

  /** Its own steps are those of a connection with a private buffer. */
  lemma OwnStep(s: State, e: Event)
    requires Good(s) && !e.Collect?
    ensures Seen(Step(s, e), e.c) == SoloStep(Seen(s, e.c), e)
  {
    if e.Start? {
      TakeFacts(s, e.reuse);
    }
  }

  /** Sharing the pool is unobservable: over every interleaving, what a connection has in its
      builder and has written to its peer is what its own events give with a private buffer. */
  lemma {:induction false} PoolUnobservable(es: seq<Event>, c: ConnId)
    ensures Seen(Run(es), c) == SoloRun(Own(es, c))
  {
    if es != [] {
      var init, e := es[..|es| - 1], es[|es| - 1];
      PoolUnobservable(init, c);
      RunGood(init);
      if !e.Collect? && e.c == c {
        OwnStep(Run(init), e);
        SoloSnoc(Own(init, c), e);
      } else {
        OthersStep(Run(init), e, c);
        assert Own(es, c) == Own(init, c);
      }
    }
  }

  lemma SoloSnoc(es: seq<Event>, e: Event)
    ensures SoloRun(es + [e]) == SoloStep(SoloRun(es), e)
  {
    assert (es + [e])[..|es|] == es;
  }

  /** The last bytes written are the first `done` bytes of the buffer. */
  ghost predicate Tail(x: Solo) {
    x.phase.Using? ==>
      var n := x.phase.done;
      n <= |x.phase.b| && n <= |x.wire| && x.wire[|x.wire| - n..] == x.phase.b[..n]
  }

  lemma {:induction false} SoloTail(es: seq<Event>)
    ensures Tail(SoloRun(es))
  {
    if es != [] {
      SoloTail(es[..|es| - 1]);
      TailStep(SoloRun(es[..|es| - 1]), es[|es| - 1]);
    }
  }

  lemma TailStep(x: Solo, e: Event)
    requires Tail(x)
    ensures Tail(SoloStep(x, e))
  {
    if e.Write? && x.phase.Using? {
      var p := x.phase;
      var piece := Piece(p.b, p.done, e.n);
      var wire := x.wire + piece;
      assert p.b[..p.done + |piece|] == p.b[..p.done] + piece;
      assert wire[|wire| - p.done - |piece|..] == x.wire[|x.wire| - p.done..] + piece;
    }
  }

  lemma RunTail(es: seq<Event>, c: ConnId)
    ensures Tail(Seen(Run(es), c))
  {
    PoolUnobservable(es, c);
    SoloTail(Own(es, c));
  }

  lemma TailHeld(s: State, c: ConnId)
    requires HeldBy(s, c).Some? && Tail(Seen(s, c))
    ensures
      var p := PhaseOf(s, c);
      var data, wire := DataOf(s.shelf, p.b), WireOf(s, c);
      && p.done <= |data| && p.done <= |wire| && wire[|wire| - p.done..] == data[..p.done]
  {
  }

  lemma EndsWhole(s: State, c: ConnId)
    requires HeldBy(s, c).Some? && PhaseOf(Step(s, EndCall(c)), c).Idle?
    ensures PhaseOf(s, c).done == |DataOf(s.shelf, PhaseOf(s, c).b)|
  {
  }

  /** Over every interleaving and every way the writes are split: the peer of a connection has
      received, last, the first `done` bytes of the builder, and all of them when the call ends. */
  lemma WholeReplyWritten(es: seq<Event>, c: ConnId)
    requires HeldBy(Run(es), c).Some?
    ensures
      var s := Run(es);
      var p := PhaseOf(s, c);
      var data, wire := DataOf(s.shelf, p.b), WireOf(s, c);
      && p.done <= |data| && p.done <= |wire| && wire[|wire| - p.done..] == data[..p.done]
      && (PhaseOf(Step(s, EndCall(c)), c).Idle? ==> p.done == |data|)
  {
    var s := Run(es);
    RunTail(es, c);
    TailHeld(s, c);
    if PhaseOf(Step(s, EndCall(c)), c).Idle? {
      EndsWhole(s, c);
    }
  }

  // ---- what each event does, after any run ----

  /** The builder `c` held went to the pool, where it was not, emptied and for anyone to take. */
  ghost predicate PutBack(s: State, t: State, c: ConnId) {
    HeldBy(s, c).Some? &&
    var b := HeldBy(s, c).value;
    && s.shelf.pool[b] == 0 && t.shelf.pool == s.shelf.pool + multiset{b} && DataOf(t.shelf, b) == []
    && t.dropped == s.dropped && HeldBy(t, c).None?
  }

  /** It went nowhere and nobody will get it again. */
  ghost predicate LeftBehind(s: State, t: State, c: ConnId) {
    HeldBy(s, c).Some? &&
    var b := HeldBy(s, c).value;
    && t.shelf == s.shelf && s.shelf.pool[b] == 0
    && b !in s.dropped && t.dropped == s.dropped + {b} && HeldBy(t, c).None?
  }

  /** EndCall ends a call whose reply is written whole, and nothing else. */
  ghost predicate EndCallRight(s: State, c: ConnId) {
    var p, t := PhaseOf(s, c), Step(s, EndCall(c));
    p.Using? ==>
      if !p.ask && p.done == |DataOf(s.shelf, p.b)| then PhaseOf(t, c) == Idle && PutBack(s, t, c) else t == s
  }

  /** checkIfDataTooLarge rejects a reply of which nothing is written. */
  ghost predicate RejectRight(s: State, c: ConnId) {
    var p, t := PhaseOf(s, c), Step(s, Reject(c));
    p.Using? ==>
      if !p.ask && p.done == 0 then PhaseOf(t, c) == Working && PutBack(s, t, c) else t == s
  }

  /** Var and ReadBody put the builder of their request back, Body leaves it behind. */
  ghost predicate EndAskRight(s: State, c: ConnId) {
    var p, kept, lost := PhaseOf(s, c), Step(s, EndAsk(c, true)), Step(s, EndAsk(c, false));
    p.Using? ==>
      if p.ask then
        && PhaseOf(kept, c) == Working && PutBack(s, kept, c)
        && PhaseOf(lost, c) == Working && LeftBehind(s, lost, c)
      else kept == s && lost == s
  }

  /** So does a connection that breaks. */
  ghost predicate BreakRight(s: State, c: ConnId) {
    var t := Step(s, Break(c));
    PhaseOf(t, c) == Closed && (PhaseOf(s, c).Using? ==> LeftBehind(s, t, c))
  }

  /** Over every run: a call that ends with its reply written, a reply that is too large and an
      ExtraInfo request of Var or ReadBody put their builder back; Body and a broken connection
      leave theirs behind; a reply not yet written whole cannot end. */
  lemma EndsExactly(es: seq<Event>, c: ConnId)
    ensures EndCallRight(Run(es), c) && RejectRight(Run(es), c) && EndAskRight(Run(es), c) && BreakRight(Run(es), c)
  {
    RunGood(es);
    StateEnds(Run(es), c);
  }

  lemma StateEnds(s: State, c: ConnId)
    requires Good(s)
    ensures EndCallRight(s, c) && RejectRight(s, c) && EndAskRight(s, c) && BreakRight(s, c)
  {
    if PhaseOf(s, c).Using? {
      assert Held(s, c, HeldBy(s, c).value);
      ReleasePutsBack(s, c, Idle);
      ReleasePutsBack(s, c, Working);
      AbandonLeaves(s, c, Working);
      AbandonLeaves(s, c, Closed);
    }
  }

  lemma ReleasePutsBack(s: State, c: ConnId, p: Phase<Id>)
    requires HeldBy(s, c).Some? && Held(s, c, HeldBy(s, c).value) && !p.Using?
    ensures PhaseOf(Release(s, c, p), c) == p && PutBack(s, Release(s, c, p), c)
  {
  }

  lemma AbandonLeaves(s: State, c: ConnId, p: Phase<Id>)
    requires HeldBy(s, c).Some? && Held(s, c, HeldBy(s, c).value) && !p.Using?
    ensures PhaseOf(Abandon(s, c, p), c) == p && LeftBehind(s, Abandon(s, c, p), c)
  {
  }

  /** An idle connection that gets a call works on it. */
  ghost predicate CallRight(s: State, c: ConnId) {
    PhaseOf(Step(s, Call(c)), c) == if PhaseOf(s, c).Idle? then Working else PhaseOf(s, c)
  }

  /** A working connection that starts gets an empty builder, the pool's choice if it made one. */
  ghost predicate StartRight(s: State, c: ConnId, reuse: Option<Id>, ask: bool) {
    var t := Step(s, Start(c, reuse, ask));
    var p := PhaseOf(t, c);
    PhaseOf(s, c).Working? ==>
      && p.Using? && p.ask == ask && p.done == 0 && DataOf(t.shelf, p.b) == []
      && (reuse.Some? && reuse.value in s.shelf.pool ==> p.b == reuse.value && p.b !in t.shelf.pool)
  }

  /** Filling adds the bytes until the first is written. */
  ghost predicate FillRight(s: State, c: ConnId, bytes: Bytes) {
    var t, p := Step(s, Fill(c, bytes)), PhaseOf(s, c);
    p.Using? ==>
      && PhaseOf(t, c) == p && WireOf(t, c) == WireOf(s, c)
      && DataOf(t.shelf, p.b) == DataOf(s.shelf, p.b) + if p.done == 0 then bytes else []
  }

  /** A write of n bytes sends the next n, or all that are left. */
  ghost predicate WriteRight(s: State, c: ConnId, n: nat) {
    var t, p := Step(s, Write(c, n)), PhaseOf(s, c);
    p.Using? ==>
      var data := DataOf(s.shelf, p.b);
      && p.done <= |data|
      && var m := if n <= |data| - p.done then n else |data| - p.done;
         && PhaseOf(t, c) == Using(p.b, p.ask, p.done + m) && DataOf(t.shelf, p.b) == data
         && WireOf(t, c) == WireOf(s, c) + data[p.done..p.done + m]
  }

  /** So it is over every run. */
  lemma WorksExactly(es: seq<Event>, c: ConnId, reuse: Option<Id>, ask: bool, bytes: Bytes, n: nat)
    ensures CallRight(Run(es), c) && StartRight(Run(es), c, reuse, ask)
    ensures FillRight(Run(es), c, bytes) && WriteRight(Run(es), c, n)
  {
    RunGood(es);
    RunTail(es, c);
    StateWorks(Run(es), c, reuse, ask, bytes, n);
  }

  lemma StateWorks(s: State, c: ConnId, reuse: Option<Id>, ask: bool, bytes: Bytes, n: nat)
    requires Good(s) && Tail(Seen(s, c))
    ensures CallRight(s, c) && StartRight(s, c, reuse, ask) && FillRight(s, c, bytes) && WriteRight(s, c, n)
  {
    CallWorks(s, c);
    StartsEmpty(s, c, reuse, ask);
    FillsMore(s, c, bytes);
    if PhaseOf(s, c).Using? {
      TailHeld(s, c);
      WritesNext(s, c, n);
    }
  }

  lemma CallWorks(s: State, c: ConnId)
    ensures CallRight(s, c)
  {
  }

  lemma StartsEmpty(s: State, c: ConnId, reuse: Option<Id>, ask: bool)
    requires Good(s)
    ensures StartRight(s, c, reuse, ask)
  {
    TakeFacts(s, reuse);
    if PhaseOf(s, c).Working? {
      var (h, b) := Take(s.shelf, reuse);
      var t := Step(s, Start(c, reuse, ask));
      assert t.shelf == h && PhaseOf(t, c) == Using(b, ask, 0);
    }
  }

  lemma FillsMore(s: State, c: ConnId, bytes: Bytes)
    ensures FillRight(s, c, bytes)
  {
  }

  lemma WritesNext(s: State, c: ConnId, n: nat)
    requires PhaseOf(s, c).Using? && PhaseOf(s, c).done <= |DataOf(s.shelf, PhaseOf(s, c).b)|
    ensures WriteRight(s, c, n)
  {
  }
}
