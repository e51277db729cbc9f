/** The configuration cache (internal/plugin/conf.go) as a step system: lock-protected Set in
    its three cache accesses, Get, the clock and expiry, interleaved in any way. */
module ConfCache {
  import opened Basics
  import opened Plugin
  import opened ReqResponse
  import opened Response
  import Request
  import RequestModel

  const UINT32: nat := 0x1_0000_0000

  // ---- strconv.FormatInt(int64(token), 10) ----

  function Digit(d: nat): char
    requires d < 10
  {
    '0' + d as char
  }

  function Decimal(n: nat): (s: string)
    ensures |s| > 0
  {
    if n < 10 then [Digit(n)] else Decimal(n / 10) + [Digit(n % 10)]
  }

  /** Different tokens have different cache keys. */
  lemma {:induction false} DecimalInjective(m: nat, n: nat)
    ensures Decimal(m) == Decimal(n) <==> m == n
  {
    if Decimal(m) == Decimal(n) {
      var last := |Decimal(m)| - 1;
      assert Decimal(m)[last] == Digit(m % 10) && Decimal(n)[last] == Digit(n % 10);
      if m >= 10 && n >= 10 {
        assert Decimal(m / 10) == Decimal(m)[..last] == Decimal(n)[..last] == Decimal(n / 10);
        DecimalInjective(m / 10, n / 10);
      }
    }
  }

  // ---- the state ----

  /** A ttlcache entry. */
  datatype Item<T> = Item(value: T, deadline: nat)

  /** Where the Set that holds the lock is. */
  datatype Setter = Free | Building(key: string, conf: RuleConf) | Stored(key: string, token: nat)

  /** A token given out: `stored` unless the token cache refused it. */
  datatype Issue = Issue(token: nat, key: string, conf: RuleConf, stored: bool)

  datatype State = State(
    tokenCache: map<string, Item<RuleConf>>,
    keyCache: map<string, Item<nat>>,
    tokenCounter: nat,
    now: nat,
    ttl: nat,
    setter: Setter,
    issued: seq<Issue>, // every issue so far
    returned: seq<(string, nat)>) // every Set that returned a token, with its key

  function Init(ttl: nat): State {
    State(map[], map[], 0, 0, ttl, Free, [], [])
  }

  /** `fault` is a cache access that fails. */
  datatype Event =
    | Tick(d: nat)
    | EvictToken(k: string)
    | EvictKey(k: string)
    | Get(token: nat)
    | Lookup(key: string, conf: RuleConf, fault: bool) // Set takes the lock and looks for its key
    | Store(fault: bool) // Set counts up and stores its entries
    | Remember(fault: bool) // Set stores its key and releases the lock

  function Found(s: State, token: nat): Option<RuleConf> {
    if Decimal(token) in s.tokenCache then Some(s.tokenCache[Decimal(token)].value) else None
  }

  /** One step; an event that cannot happen changes nothing. */
  function Step(s: State, e: Event): State {
    match e
    case Tick(d) => s.(now := s.now + d)
    case EvictToken(k) =>
      if k in s.tokenCache && s.tokenCache[k].deadline <= s.now then s.(tokenCache := s.tokenCache - {k}) else s
    case EvictKey(k) =>
      if k in s.keyCache && s.keyCache[k].deadline <= s.now then s.(keyCache := s.keyCache - {k}) else s
    case Get(token) =>
      var k := Decimal(token);
      if k !in s.tokenCache then s
      else s.(tokenCache := s.tokenCache[k := s.tokenCache[k].(deadline := s.now + s.ttl)])
    case Lookup(key, conf, fault) =>
      if !s.setter.Free? then s
      else if key != "" && key in s.keyCache && !fault then
        s.(keyCache := s.keyCache[key := s.keyCache[key].(deadline := s.now + s.ttl)],
           returned := s.returned + [(key, s.keyCache[key].value)])
      else s.(setter := Building(key, conf))
    case Store(fault) =>
      if !s.setter.Building? then s
      else
        var Building(key, conf) := s.setter;
        var token := (s.tokenCounter + 1) % UINT32;
        var t := s.(tokenCounter := token, issued := s.issued + [Issue(token, key, conf, !fault)]);
        if fault then t.(setter := Free)
        else
          t.(setter := Stored(key, token),
             tokenCache := s.tokenCache[Decimal(token) := Item(conf, s.now + s.ttl)])
    case Remember(fault) =>
      if !s.setter.Stored? then s
      else
        var Stored(key, token) := s.setter;
        if fault then s.(setter := Free)
        else
          s.(setter := Free,
             keyCache := s.keyCache[key := Item(token, s.now + s.ttl)],
             returned := s.returned + [(key, token)])
  }

  function Run(s: State, es: seq<Event>): State {
    if es == [] then s else Step(Run(s, es[..|es| - 1]), es[|es| - 1])
  }

  // ---- what a token stands for ----

  /** The configuration stored by the last Set that was given this token. */
  function Latest(issued: seq<Issue>, token: nat): Option<RuleConf> {
    if issued == [] then None
    else
      var i := issued[|issued| - 1];
      if i.stored && i.token == token then Some(i.conf) else Latest(issued[..|issued| - 1], token)
  }

  ghost predicate Inv(s: State) {
    && s.tokenCounter == |s.issued| % UINT32
    && (forall i :: 0 <= i < |s.issued| ==> s.issued[i].token == (i + 1) % UINT32)
    && (forall t: nat :: Decimal(t) in s.tokenCache ==>
                           Latest(s.issued, t) == Some(s.tokenCache[Decimal(t)].value))
    && (forall k :: k in s.tokenCache ==> s.tokenCache[k].deadline <= s.now + s.ttl)
  }

  lemma LatestSnoc(issued: seq<Issue>, i: Issue, token: nat)
    ensures Latest(issued + [i], token)
            == if i.stored && i.token == token then Some(i.conf) else Latest(issued, token)
  {
    assert (issued + [i])[..|issued|] == issued;
  }

  lemma StoreInv(s: State, fault: bool)
    requires Inv(s) && s.setter.Building?
    ensures Inv(Step(s, Store(fault)))
  {
    var s' := Step(s, Store(fault));
    var i := s'.issued[|s.issued|];
    assert s'.issued == s.issued + [i];
    forall t: nat | Decimal(t) in s'.tokenCache
      ensures Latest(s'.issued, t) == Some(s'.tokenCache[Decimal(t)].value)
    {
      DecimalInjective(t, s'.tokenCounter);
      LatestSnoc(s.issued, i, t);
    }
  }

  lemma StepInv(s: State, e: Event)
    requires Inv(s)
    ensures Inv(Step(s, e))
  {
    if e.Store? && s.setter.Building? {
      StoreInv(s, e.fault);
    }
  }

  lemma {:induction false} RunInv(ttl: nat, es: seq<Event>)
    ensures Inv(Run(Init(ttl), es))
  {
    if es != [] {
      RunInv(ttl, es[..|es| - 1]);
      StepInv(Run(Init(ttl), es[..|es| - 1]), es[|es| - 1]);
    }
  }

  ghost predicate DistinctTokens(issued: seq<Issue>) {
    forall i, j :: 0 <= i < j < |issued| ==> issued[i].token != issued[j].token
  }

  /** Safety over every interleaving of Set, Get, expiry and cache faults: Get finds nothing, or
      exactly what the last Set given this token built; and no two Sets are given the same token
      if and only if no more than 2^32 were. */
  lemma GetExact(ttl: nat, es: seq<Event>, token: nat)
    ensures
      var s := Run(Init(ttl), es);
      && (Found(s, token).None? || Found(s, token) == Latest(s.issued, token))
      && (DistinctTokens(s.issued) <==> |s.issued| <= UINT32)
  {
    RunInv(ttl, es);
    TokensWrap(Run(Init(ttl), es).issued);
  }

  lemma TokensWrap(issued: seq<Issue>)
    requires forall i :: 0 <= i < |issued| ==> issued[i].token == (i + 1) % UINT32
    ensures DistinctTokens(issued) <==> |issued| <= UINT32
  {
    if |issued| > UINT32 {
      assert issued[0].token == issued[UINT32].token;
    }
  }

  /** Under distinct tokens the last such Set is the only one. */
  lemma {:induction false} LatestIsTheIssuer(issued: seq<Issue>, i: nat)
    requires DistinctTokens(issued) && i < |issued|
    ensures Latest(issued, issued[i].token) == if issued[i].stored then Some(issued[i].conf) else None
  {
    var n := |issued| - 1;
    if i < n {
      assert forall j :: 0 <= j < n ==> issued[..n][j] == issued[j];
      LatestIsTheIssuer(issued[..n], i);
    } else {
      NoOther(issued[..n], issued[i].token);
    }
  }

  lemma {:induction false} NoOther(issued: seq<Issue>, token: nat)
    requires forall j :: 0 <= j < |issued| ==> issued[j].token != token
    ensures Latest(issued, token).None?
  {
    if issued != [] {
      NoOther(issued[..|issued| - 1], token);
    }
  }

  // ---- how long a token resolves ----

  /** While no later issue repeats it, a token keeps its meaning. */
  lemma {:induction false} LatestKept(later: seq<Issue>, earlier: seq<Issue>, token: nat)
    requires earlier <= later
    requires forall j :: |earlier| <= j < |later| ==> later[j].token != token
    ensures Latest(later, token) == Latest(earlier, token)
    decreases |later|
  {
    if |later| == |earlier| {
      assert later == earlier;
    } else {
      var n := |later| - 1;
      assert later[..n][..|earlier|] == earlier;
      LatestKept(later[..n], earlier, token);
    }
  }

  lemma ModDiffers(a: nat, b: nat)
    requires a < b < a + UINT32
    ensures a % UINT32 != b % UINT32
  {
  }

  lemma StepStays(s: State, k: string, e: Event)
    requires Inv(s) && k in s.tokenCache && Step(s, e).now < s.tokenCache[k].deadline
    ensures s.issued <= Step(s, e).issued && Step(s, e).ttl == s.ttl
    ensures k in Step(s, e).tokenCache && Step(s, e).tokenCache[k].deadline >= s.tokenCache[k].deadline
  {
  }

  lemma StepForward(s: State, e: Event)
    ensures s.now <= Step(s, e).now
  {
  }

  /** An entry is not evicted before its deadline, whatever else happens. */
  lemma {:induction false} StaysUntilDeadline(s: State, k: string, es: seq<Event>)
    requires Inv(s) && k in s.tokenCache && Run(s, es).now < s.tokenCache[k].deadline
    ensures Inv(Run(s, es)) && s.issued <= Run(s, es).issued && Run(s, es).ttl == s.ttl
    ensures k in Run(s, es).tokenCache && Run(s, es).tokenCache[k].deadline >= s.tokenCache[k].deadline
  {
    if es != [] {
      var init, e := es[..|es| - 1], es[|es| - 1];
      StepForward(Run(s, init), e);
      StaysUntilDeadline(s, k, init);
      StepInv(Run(s, init), e);
      StepStays(Run(s, init), k, e);
    }
  }

  /** The token of issue `i`, issued or found at some time, resolves to the same configuration at
      every later time before its idle time is over, for every interleaving in between with fewer
      than 2^32 issues after it. */
  lemma TouchedTokenResolves(s: State, i: nat, es: seq<Event>)
    requires Inv(s) && i < |s.issued|
    requires
      var k := Decimal(s.issued[i].token);
      k in s.tokenCache && s.tokenCache[k].deadline == s.now + s.ttl
    requires Run(s, es).now < s.now + s.ttl
    requires |Run(s, es).issued| <= i + UINT32
    ensures Found(Run(s, es), s.issued[i].token) == Found(s, s.issued[i].token)
  {
    var token, later := s.issued[i].token, Run(s, es).issued;
    StaysUntilDeadline(s, Decimal(token), es);
    forall j | |s.issued| <= j < |later|
      ensures later[j].token != token
    {
      ModDiffers(i + 1, j + 1);
    }
    LatestKept(later, s.issued, token);
  }

  // ---- exactly when a token resolves ----

  /** The event gives the token out, or is a Get that finds it. */
  predicate Touches(s: State, e: Event, token: nat) {
    || (e.Get? && e.token == token && Found(s, token).Some?)
    || (e.Store? && !e.fault && s.setter.Building? && (s.tokenCounter + 1) % UINT32 == token)
  }

  /** When a token was last touched in a run. */
  function LastTouch(ttl: nat, es: seq<Event>, token: nat): Option<nat> {
    if es == [] then None
    else
      var s := Run(Init(ttl), es[..|es| - 1]);
      if Touches(s, es[|es| - 1], token) then Some(s.now) else LastTouch(ttl, es[..|es| - 1], token)
  }

  /** The token's entry has the deadline its last touch gives, and is gone only after it. */
  ghost predicate TouchKept(s: State, last: Option<nat>, token: nat) {
    var k := Decimal(token);
    match last
    case None => k !in s.tokenCache
    case Some(t) =>
      && (k in s.tokenCache ==> s.tokenCache[k].deadline == t + s.ttl)
      && (k !in s.tokenCache ==> t + s.ttl <= s.now)
  }

  lemma StepTouchKept(s: State, e: Event, last: Option<nat>, token: nat)
    requires TouchKept(s, last, token)
    ensures TouchKept(Step(s, e), if Touches(s, e, token) then Some(s.now) else last, token)
  {
    if e.Get? {
      DecimalInjective(e.token, token);
    } else if e.Store? {
      DecimalInjective((s.tokenCounter + 1) % UINT32, token);
    }
  }

  lemma {:induction false} RunTouchKept(ttl: nat, es: seq<Event>, token: nat)
    ensures TouchKept(Run(Init(ttl), es), LastTouch(ttl, es, token), token)
    ensures Run(Init(ttl), es).ttl == ttl
  {
    if es != [] {
      RunTouchKept(ttl, es[..|es| - 1], token);
      StepTouchKept(Run(Init(ttl), es[..|es| - 1]), es[|es| - 1], LastTouch(ttl, es[..|es| - 1], token), token);
    }
  }

  /** Exactly when a token resolves and cannot be evicted at this instant: for every run and every
      token, if and only if its idle time since its last touch is not over. */
  lemma ResolvesExactly(ttl: nat, es: seq<Event>, token: nat)
    ensures
      var s, last := Run(Init(ttl), es), LastTouch(ttl, es, token);
      Found(Step(s, EvictToken(Decimal(token))), token).Some?
      <==> last.Some? && s.now < last.value + ttl
  {
    RunTouchKept(ttl, es, token);
  }

  /** An issue that was stored, for this key, of this token. */
  ghost predicate StoredFor(issued: seq<Issue>, i: int, key: string, token: nat) {
    && 0 <= i < |issued|
    && issued[i].key == key && issued[i].token == token && issued[i].stored
  }

  ghost predicate WasStored(s: State, key: string, token: nat) {
    exists i :: StoredFor(s.issued, i, key, token)
  }

  /** Every key, also one not yet remembered, leads to a stored issue of its own. */
  ghost predicate KeysIssued(s: State) {
    && (forall k :: k in s.keyCache ==> WasStored(s, k, s.keyCache[k].value))
    && (s.setter.Stored? ==> WasStored(s, s.setter.key, s.setter.token))
  }

  lemma WasStoredKept(s: State, e: Event, key: string, token: nat)
    requires WasStored(s, key, token)
    ensures WasStored(Step(s, e), key, token)
  {
    var i :| StoredFor(s.issued, i, key, token);
    assert StoredFor(Step(s, e).issued, i, key, token);
  }

  lemma StepKeysIssued(s: State, e: Event)
    requires KeysIssued(s)
    ensures KeysIssued(Step(s, e))
  {
    var s' := Step(s, e);
    if e.Store? && s.setter.Building? && !e.fault {
      assert StoredFor(s'.issued, |s.issued|, s.setter.key, s'.tokenCounter);
    }
    if s.setter.Stored? {
      WasStoredKept(s, e, s.setter.key, s.setter.token);
    }
    forall k | k in s.keyCache
      ensures WasStored(s', k, s.keyCache[k].value)
    {
      WasStoredKept(s, e, k, s.keyCache[k].value);
    }
  }

  lemma {:induction false} RunKeysIssued(ttl: nat, es: seq<Event>)
    ensures KeysIssued(Run(Init(ttl), es))
  {
    if es != [] {
      RunKeysIssued(ttl, es[..|es| - 1]);
      StepKeysIssued(Run(Init(ttl), es[..|es| - 1]), es[|es| - 1]);
    }
  }

  /** A token that was stored was touched. */
  lemma {:induction false} StoredTouched(ttl: nat, es: seq<Event>, i: nat)
    requires i < |Run(Init(ttl), es).issued| && Run(Init(ttl), es).issued[i].stored
    ensures LastTouch(ttl, es, Run(Init(ttl), es).issued[i].token).Some?
  {
    var init, e := es[..|es| - 1], es[|es| - 1];
    var s := Run(Init(ttl), init);
    if i < |s.issued| {
      assert Step(s, e).issued[i] == s.issued[i];
      StoredTouched(ttl, init, i);
    } else {
      assert Touches(s, e, Step(s, e).issued[i].token);
    }
  }

  /** Get finds `conf` or nothing, and finds it for certain exactly while the idle time lasts. */
  ghost predicate ResolvesTo(ttl: nat, es: seq<Event>, token: nat, conf: RuleConf) {
    var s, last := Run(Init(ttl), es), LastTouch(ttl, es, token);
    && (Found(s, token).None? || Found(s, token) == Some(conf))
    && last.Some?
    && (Found(Step(s, EvictToken(Decimal(token))), token) == Some(conf) <==> s.now < last.value + ttl)
    && (s.now < last.value + ttl ==> Found(s, token) == Some(conf))
  }

  /** So it is for the token of every stored issue, over every run with at most 2^32 issues. */
  lemma IssueResolvesExactly(ttl: nat, es: seq<Event>, i: nat)
    requires i < |Run(Init(ttl), es).issued| <= UINT32 && Run(Init(ttl), es).issued[i].stored
    ensures ResolvesTo(ttl, es, Run(Init(ttl), es).issued[i].token, Run(Init(ttl), es).issued[i].conf)
  {
    var s := Run(Init(ttl), es);
    var token := s.issued[i].token;
    GetExact(ttl, es, token);
    LatestIsTheIssuer(s.issued, i);
    StoredTouched(ttl, es, i);
    ResolvesExactly(ttl, es, token);
    EvictKeepsValue(s, token);
  }

  /** Exactly when a key leads to a token that resolves: over every run with expiry and faults and
      at most 2^32 issues, the token under a key is that of an issue for this key, Get finds
      nothing else under it, and it finds it for certain if and only if the idle time of the token
      itself, which a hit of the key does not renew, is not over. */
  lemma KeyResolvesExactly(ttl: nat, es: seq<Event>, key: string) returns (i: nat)
    requires key in Run(Init(ttl), es).keyCache && |Run(Init(ttl), es).issued| <= UINT32
    ensures
      var s := Run(Init(ttl), es);
      var token := s.keyCache[key].value;
      && StoredFor(s.issued, i, key, token)
      && ResolvesTo(ttl, es, token, s.issued[i].conf)
  {
    var s := Run(Init(ttl), es);
    var token := s.keyCache[key].value;
    RunKeysIssued(ttl, es);
    assert WasStored(s, key, token);
    i :| StoredFor(s.issued, i, key, token);
    IssueResolvesExactly(ttl, es, i);
  }

  lemma EvictKeepsValue(s: State, token: nat)
    ensures
      var s' := Step(s, EvictToken(Decimal(token)));
      Found(s', token).None? || Found(s', token) == Found(s, token)
  {
  }

  /** The miss path starts that time and each hit of Get starts it again. */
  lemma MissAndHitTouch(s: State, token: nat)
    requires Inv(s)
    ensures s.setter.Building? ==>
              var s' := Step(s, Store(false));
              && Found(s', s'.tokenCounter) == Some(s.setter.conf)
              && s'.tokenCache[Decimal(s'.tokenCounter)].deadline == s'.now + s'.ttl
    ensures Found(s, token).Some? ==>
              var s' := Step(s, Get(token));
              && Found(s', token) == Found(s, token)
              && s'.tokenCache[Decimal(token)].deadline == s'.now + s'.ttl
  {
  }

  // ---- getConfCacheTTL ----

  const NANOS: nat := 1_000_000_000
  const MAX_INT64: nat := 0x7FFF_FFFF_FFFF_FFFF

  /** int64 arithmetic. */
  function Wrap64(n: int): int {
    (n + 0x8000_0000_0000_0000) % 0x1_0000_0000_0000_0000 - 0x8000_0000_0000_0000
  }

  const TWO52: nat := 0x10_0000_0000_0000

  /** The binary64 number nearest to 1.2 is this many units of 2^-52. */
  const FACTOR: nat := 5404319552844595

  function Pow2(e: nat): (p: nat)
    ensures p > 0
  {
    if e == 0 then 1 else 2 * Pow2(e - 1)
  }

  /** How many low bits of `m` a significand of 53 bits cannot hold. */
  function Excess(m: nat): nat {
    if m < 2 * TWO52 then 0 else 1 + Excess(m / 2)
  }

  /** Rounding to binary64, to nearest and ties to even. */
  function Round(m: nat): nat {
    var p := Pow2(Excess(m));
    var q, rem := m / p, m % p;
    if 2 * rem < p || (2 * rem == p && q % 2 == 0) then q * p else (q + 1) * p
  }

  /** time.Duration(float64(n) * 1.2): the product in units of 2^-52, rounded, then truncated. */
  function CacheSeconds(n: nat): nat {
    Round(n * FACTOR) / TWO52
  }

  /** The same times time.Second. */
  function CacheTtl(n: nat): int {
    Wrap64(CacheSeconds(n) * NANOS)
  }

  lemma {:induction false} ExcessBounds(m: nat)
    ensures
      var e := Excess(m);
      m < 2 * TWO52 * Pow2(e) && (e > 0 ==> TWO52 * Pow2(e) <= m)
  {
    if m >= 2 * TWO52 {
      ExcessBounds(m / 2);
    }
  }

  lemma {:induction false} Pow2Split(d: nat, e: nat)
    requires e <= d
    ensures Pow2(d) == Pow2(d - e) * Pow2(e)
  {
    if e > 0 {
      Pow2Split(d, e - 1);
      assert Pow2(d - (e - 1)) == 2 * Pow2(d - e);
      assert Pow2(e) == 2 * Pow2(e - 1);
      MulSwap(Pow2(d - e), Pow2(e - 1));
    }
  }

  lemma MulSwap(a: nat, b: nat)
    ensures 2 * a * b == a * (2 * b)
  {
  }

  lemma Pow2Of52()
    ensures Pow2(52) == TWO52
  {
    assert Pow2(13) == 8192;
    Pow2Split(26, 13);
    Pow2Split(52, 26);
  }

  lemma Pow2Large(e: nat)
    ensures e < 52 || Pow2(e) >= TWO52
  {
    if e >= 52 {
      Pow2Split(e, 52);
      Pow2Of52();
      MulMonotone(1, Pow2(e - 52), TWO52);
    }
  }

  /** A rounded number is a multiple of its last place and within half of it. */
  lemma RoundNear(m: nat) returns (j: nat, p: nat)
    ensures p == Pow2(Excess(m)) && Round(m) == j * p
    ensures 2 * Round(m) <= 2 * m + p && 2 * m <= 2 * Round(m) + p
  {
    p := Pow2(Excess(m));
    var q, rem := m / p, m % p;
    assert m == q * p + rem;
    assert (q + 1) * p == q * p + p;
    j := if 2 * rem < p || (2 * rem == p && q % 2 == 0) then q else q + 1;
  }

  /** Of two multiples of `p` the larger is larger by at least `p`. */
  lemma MultiplesApart(a: nat, b: nat, p: nat)
    ensures a * p <= b * p || b * p + p <= a * p
  {
    if a <= b {
      MulMonotone(a, b, p);
    } else {
      MulMonotone(b + 1, a, p);
      assert (b + 1) * p == b * p + p;
    }
  }

  lemma MulMonotone(a: nat, b: nat, p: nat)
    requires a <= b
    ensures a * p <= b * p
  {
    assert b * p == a * p + (b - a) * p;
  }

  /** The last place of the product is a small power of two. */
  lemma LastPlace(n: nat) returns (p: nat, units: nat)
    requires 2 <= n < 0x2_0000_0000_0000
    ensures p == Pow2(Excess(n * FACTOR)) && 2 <= p && p < 2 * n && 5 * n <= 10 * p && units * p == TWO52
  {
    var m := n * FACTOR;
    p := Pow2(Excess(m));
    ExcessBounds(m);
    assert m >= 2 * TWO52;
    assert Excess(m) > 0;
    Pow2Split(Excess(m), 1);
    Pow2Of52();
    Pow2Large(Excess(m));
    Pow2Split(52, Excess(m));
    units := Pow2(52 - Excess(m));
  }

  /** In binary floating point the time is six fifths, rounded down, all the same. */
  lemma SecondsExact(n: nat)
    requires 1 <= n < 0x2_0000_0000_0000
    ensures CacheSeconds(n) == 6 * n / 5
  {
    var m, q, r := n * FACTOR, 6 * n / 5, 6 * n % 5;
    assert 5 * m == 6 * n * TWO52 - n;
    var j, _ := RoundNear(m);
    if n == 1 {
      assert Pow2(0) == 1;
    } else {
      var p, units := LastPlace(n);
      assert 5 * m == 5 * q * TWO52 + r * TWO52 - n;
      if r == 0 {
        assert q * units * p == q * TWO52 by { MulAssoc(q, units, p); }
        MultiplesApart(q * units, j, p);
      }
    }
  }

  lemma MulAssoc(a: nat, b: nat, c: nat)
    ensures a * b * c == a * (b * c)
  {
  }

  /** The configured time: the cache keeps an entry at least as long as APISIX keeps its token, and
      strictly longer, as intended, if and only if the time is 5 seconds or more; beyond 7686143364
      seconds the product no longer fits int64. */
  lemma TtlExact(n: nat)
    requires 1 <= n
    ensures CacheTtl(n) == 6 * n / 5 * NANOS <==> n <= 7686143364
    ensures n <= 7686143364 ==> CacheTtl(n) >= n * NANOS && (CacheTtl(n) > n * NANOS <==> n >= 5)
  {
    SecondsFit(n);
    if n < 0x2_0000_0000_0000 {
      SecondsExact(n);
      TtlFits(6 * n / 5 * NANOS);
    } else {
      Wrap64Range(CacheSeconds(n) * NANOS);
    }
  }

  lemma SecondsFit(n: nat)
    ensures 6 * n / 5 * NANOS <= MAX_INT64 <==> n <= 7686143364
    ensures 6 * n / 5 * NANOS >= n * NANOS && (6 * n / 5 * NANOS > n * NANOS <==> n >= 5)
    ensures n < 0x2_0000_0000_0000 ==> 6 * n / 5 * NANOS < 0x8000_0000_0000_0000 * NANOS
  {
  }

  lemma Wrap64Range(x: int)
    ensures Wrap64(x) <= MAX_INT64
  {
  }

  lemma TtlFits(d: nat)
    requires d < 0x8000_0000_0000_0000 * NANOS
    ensures Wrap64(d) == d <==> d <= MAX_INT64
  {
  }

  /** So for every such time of n seconds, a token resolves for at least n seconds from its issue. */
  lemma ApisixWindow(n: nat, s: State, es: seq<Event>)
    requires 1 <= n <= 7686143364 && s.ttl == CacheTtl(n)
    requires Inv(s) && s.setter.Building?
    requires
      var s' := Step(s, Store(false));
      Run(s', es).now < s.now + n * NANOS && |Run(s', es).issued| <= |s.issued| + UINT32
    ensures
      var s' := Step(s, Store(false));
      Found(Run(s', es), s'.tokenCounter) == Some(s.setter.conf)
  {
    TtlExact(n);
    MissAndHitTouch(s, 0);
    StoreInv(s, false);
    var s' := Step(s, Store(false));
    assert s'.issued[|s.issued|].token == s'.tokenCounter;
    TouchedTokenResolves(s', |s.issued|, es);
  }

  // ---- idempotent keys ----

  /** No expiry and no fault. */
  predicate Lossless(e: Event) {
    match e
    case EvictToken(_) => false
    case EvictKey(_) => false
    case Lookup(_, _, fault) => !fault
    case Store(fault) => !fault
    case Remember(fault) => !fault
    case _ => true
  }

  /** Where the issue of a key is recorded. */
  ghost predicate Recorded(s: State, i: Issue) {
    || (i.key in s.keyCache && s.keyCache[i.key].value == i.token)
    || s.setter == Stored(i.key, i.token)
  }

  ghost predicate IssuedFor(s: State, key: string, token: nat) {
    exists i :: i in s.issued && i.key == key && i.token == token
  }

  ghost predicate KeyInv(s: State) {
    && (forall i :: i in s.issued && i.key != "" ==> Recorded(s, i))
    && (forall i :: i in s.issued ==> Decimal(i.token) in s.tokenCache)
    && (forall k :: k in s.keyCache ==> IssuedFor(s, k, s.keyCache[k].value))
    && (s.setter.Building? && s.setter.key != "" ==>
          s.setter.key !in s.keyCache && forall i :: i in s.issued ==> i.key != s.setter.key)
    && (s.setter.Stored? && s.setter.key != "" ==> s.setter.key !in s.keyCache)
    && (s.setter.Stored? ==> IssuedFor(s, s.setter.key, s.setter.token))
    && (forall r :: r in s.returned && r.0 != "" ==> r.0 in s.keyCache && s.keyCache[r.0].value == r.1)
  }

  lemma StoreKeyInv(s: State)
    requires KeyInv(s) && s.setter.Building?
    ensures KeyInv(Step(s, Store(false)))
  {
  }

  lemma RememberKeyInv(s: State)
    requires KeyInv(s) && s.setter.Stored?
    ensures KeyInv(Step(s, Remember(false)))
  {
  }

  lemma LookupKeyInv(s: State, key: string, conf: RuleConf)
    requires KeyInv(s) && s.setter.Free?
    ensures KeyInv(Step(s, Lookup(key, conf, false)))
  {
  }

  lemma StepKeyInv(s: State, e: Event)
    requires KeyInv(s) && Lossless(e)
    ensures KeyInv(Step(s, e))
  {
    if e.Store? && s.setter.Building? {
      StoreKeyInv(s);
    } else if e.Remember? && s.setter.Stored? {
      RememberKeyInv(s);
    } else if e.Lookup? && s.setter.Free? {
      LookupKeyInv(s, e.key, e.conf);
    } else if e.Get? || e.Tick? {
      assert forall k, t :: IssuedFor(s, k, t) ==> IssuedFor(Step(s, e), k, t);
    }
  }

  lemma {:induction false} RunKeyInv(ttl: nat, es: seq<Event>)
    requires forall e :: e in es ==> Lossless(e)
    ensures KeyInv(Run(Init(ttl), es))
  {
    if es != [] {
      RunKeyInv(ttl, es[..|es| - 1]);
      assert es[|es| - 1] in es;
      StepKeyInv(Run(Init(ttl), es[..|es| - 1]), es[|es| - 1]);
    }
  }

  /** Idempotent keys: without expiry or faults, in every lock-serialised order, all Sets with the
      same nonempty key return one token, Sets with different nonempty keys return different ones,
      and every key leads to a stored configuration. */
  lemma IdempotentKeys(ttl: nat, es: seq<Event>)
    requires forall e :: e in es ==> Lossless(e)
    ensures
      var s := Run(Init(ttl), es);
      && (forall a, b :: a in s.returned && b in s.returned && a.0 == b.0 && a.0 != "" ==> a.1 == b.1)
      && (|s.issued| <= UINT32 ==>
            forall a, b :: a in s.returned && b in s.returned && a.0 != "" && b.0 != "" && a.0 != b.0 ==> a.1 != b.1)
      && (forall k :: k in s.keyCache ==> Found(s, s.keyCache[k].value).Some?)
  {
    var s := Run(Init(ttl), es);
    RunKeyInv(ttl, es);
    GetExact(ttl, es, 0);
    if |s.issued| <= UINT32 {
      forall a, b | a in s.returned && b in s.returned && a.0 != "" && b.0 != "" && a.0 != b.0
        ensures a.1 != b.1
      {
        TokensOfKeysDiffer(s, a.0, b.0);
      }
    }
    forall k | k in s.keyCache
      ensures Found(s, s.keyCache[k].value).Some?
    {
      assert IssuedFor(s, k, s.keyCache[k].value);
    }
  }

  lemma TokensOfKeysDiffer(s: State, k: string, l: string)
    requires KeyInv(s) && DistinctTokens(s.issued)
    requires k in s.keyCache && l in s.keyCache && k != l
    ensures s.keyCache[k].value != s.keyCache[l].value
  {
  }

  // ---- idempotent keys with expiry and faults ----

  /** The event is a Set that finds the key, or one that remembers it. */
  predicate KeyTouches(s: State, e: Event, key: string) {
    || (e.Lookup? && !e.fault && s.setter.Free? && e.key == key && key != "" && key in s.keyCache)
    || (e.Remember? && !e.fault && s.setter.Stored? && s.setter.key == key)
  }

  /** When a key was last touched in a run. */
  function LastKeyTouch(ttl: nat, es: seq<Event>, key: string): Option<nat> {
    if es == [] then None
    else
      var s := Run(Init(ttl), es[..|es| - 1]);
      if KeyTouches(s, es[|es| - 1], key) then Some(s.now) else LastKeyTouch(ttl, es[..|es| - 1], key)
  }

  /** The token last returned to a Set with this key. */
  function LastReturned(returned: seq<(string, nat)>, key: string): Option<nat> {
    if returned == [] then None
    else if returned[|returned| - 1].0 == key then Some(returned[|returned| - 1].1)
    else LastReturned(returned[..|returned| - 1], key)
  }

  /** The key's entry has the token last returned and the deadline its last touch gives, and is
      gone only after it. */
  ghost predicate KeyTouchKept(s: State, last: Option<nat>, key: string) {
    match last
    case None => key !in s.keyCache
    case Some(t) =>
      && (key in s.keyCache ==>
            s.keyCache[key].deadline == t + s.ttl && LastReturned(s.returned, key) == Some(s.keyCache[key].value))
      && (key !in s.keyCache ==> t + s.ttl <= s.now)
  }

  lemma LastReturnedSnoc(returned: seq<(string, nat)>, r: (string, nat), key: string)
    ensures LastReturned(returned + [r], key) == if r.0 == key then Some(r.1) else LastReturned(returned, key)
  {
    assert (returned + [r])[..|returned|] == returned;
  }

  lemma StepKeyTouchKept(s: State, e: Event, last: Option<nat>, key: string)
    requires KeyTouchKept(s, last, key)
    ensures KeyTouchKept(Step(s, e), if KeyTouches(s, e, key) then Some(s.now) else last, key)
  {
    if e.Lookup? && e.key in s.keyCache {
      LastReturnedSnoc(s.returned, (e.key, s.keyCache[e.key].value), key);
    } else if e.Remember? && s.setter.Stored? {
      LastReturnedSnoc(s.returned, (s.setter.key, s.setter.token), key);
    }
  }

  lemma {:induction false} RunKeyTouchKept(ttl: nat, es: seq<Event>, key: string)
    ensures KeyTouchKept(Run(Init(ttl), es), LastKeyTouch(ttl, es, key), key)
    ensures Run(Init(ttl), es).ttl == ttl
  {
    if es != [] {
      var init := es[..|es| - 1];
      RunKeyTouchKept(ttl, init, key);
      StepKeyTouchKept(Run(Init(ttl), init), es[|es| - 1], LastKeyTouch(ttl, init, key), key);
    }
  }

  /** Idempotence exactly: over every run with expiry and faults, the next Set with a nonempty key
      is sure to return the token last returned under it if and only if the idle time of the key
      since its last touch is not over; otherwise, once the key is evicted, it builds anew. Without
      a key, and when looking it up fails, every Set builds anew. */
  lemma KeyReturnsExactly(ttl: nat, es: seq<Event>, key: string, conf: RuleConf)
    requires Run(Init(ttl), es).setter.Free?
    ensures
      var s := Run(Init(ttl), es);
      && Step(s, Lookup("", conf, false)) == s.(setter := Building("", conf))
      && Step(s, Lookup(key, conf, true)) == s.(setter := Building(key, conf))
    ensures
      key != "" ==>
        var s, last := Run(Init(ttl), es), LastKeyTouch(ttl, es, key);
        var t, token := Step(Step(s, EvictKey(key)), Lookup(key, conf, false)), LastReturned(s.returned, key);
        if last.Some? && s.now < last.value + ttl then
          token.Some? && t.returned == s.returned + [(key, token.value)]
        else t.returned == s.returned && t.setter == Building(key, conf)
  {
    RunKeyTouchKept(ttl, es, key);
  }

  // ---- fresh tokens ----

  /** A keyless return, or the first under its key. */
  predicate FirstReturn(returned: seq<(string, nat)>, j: int)
    requires 0 <= j < |returned|
  {
    returned[j].0 == "" || forall i :: 0 <= i < j ==> returned[i].0 != returned[j].0
  }

  ghost predicate Rising(returned: seq<(string, nat)>) {
    forall i, j :: 0 <= i < j < |returned| && FirstReturn(returned, j) ==> returned[i].1 < returned[j].1
  }

  ghost predicate ReturnedUnder(s: State, key: string) {
    exists i :: 0 <= i < |s.returned| && s.returned[i].0 == key
  }

  ghost predicate ReturnInv(s: State) {
    && Rising(s.returned)
    && (forall i :: 0 <= i < |s.returned| ==> s.returned[i].1 <= |s.issued|)
    && (forall k :: k in s.keyCache ==> ReturnedUnder(s, k) && s.keyCache[k].value <= |s.issued|)
    && (s.setter.Stored? ==>
          && s.setter.token == |s.issued|
          && forall i :: 0 <= i < |s.returned| ==> s.returned[i].1 < s.setter.token)
  }

  lemma RisingSnoc(returned: seq<(string, nat)>, r: (string, nat))
    requires Rising(returned)
    requires FirstReturn(returned + [r], |returned|) ==> forall i :: 0 <= i < |returned| ==> returned[i].1 < r.1
    ensures Rising(returned + [r])
  {
    var all := returned + [r];
    forall i, j | 0 <= i < j < |all| && FirstReturn(all, j)
      ensures all[i].1 < all[j].1
    {
      if j < |returned| {
        assert forall h :: 0 <= h <= j ==> all[h] == returned[h];
        assert FirstReturn(returned, j);
      }
    }
  }

  /** Appending a return keeps the invariant's other parts. */
  lemma ReturnStep(s: State, t: State, r: (string, nat))
    requires ReturnInv(s) && t.returned == s.returned + [r] && t.issued == s.issued
    requires t.setter.Free? && r.1 <= |s.issued|
    requires forall k :: k in t.keyCache ==>
               || (k == r.0 && t.keyCache[k].value == r.1)
               || (k in s.keyCache && t.keyCache[k].value == s.keyCache[k].value)
    requires FirstReturn(t.returned, |s.returned|) ==> forall i :: 0 <= i < |s.returned| ==> s.returned[i].1 < r.1
    ensures ReturnInv(t)
  {
    RisingSnoc(s.returned, r);
    forall k | k in t.keyCache
      ensures ReturnedUnder(t, k)
    {
      if k == r.0 {
        assert t.returned[|s.returned|].0 == k;
      } else {
        assert ReturnedUnder(s, k);
        var i :| 0 <= i < |s.returned| && s.returned[i].0 == k;
        assert t.returned[i].0 == k;
      }
    }
  }

  /** A step that returns nothing keeps it. */
  lemma QuietStep(s: State, t: State)
    requires ReturnInv(s) && t.returned == s.returned && |s.issued| <= |t.issued|
    requires forall k :: k in t.keyCache ==> k in s.keyCache && t.keyCache[k].value == s.keyCache[k].value
    requires t.setter.Stored? ==>
               || (t.setter == s.setter && t.issued == s.issued)
               || (t.setter.token == |t.issued| == |s.issued| + 1)
    ensures ReturnInv(t)
  {
    forall k | k in t.keyCache
      ensures ReturnedUnder(t, k)
    {
      assert ReturnedUnder(s, k);
    }
  }

  lemma LookupReturn(s: State, key: string, conf: RuleConf)
    requires ReturnInv(s) && s.setter.Free? && key != "" && key in s.keyCache
    ensures ReturnInv(Step(s, Lookup(key, conf, false)))
  {
    var t := Step(s, Lookup(key, conf, false));
    assert ReturnedUnder(s, key);
    var i :| 0 <= i < |s.returned| && s.returned[i].0 == key;
    assert t.returned[i].0 == key;
    ReturnStep(s, t, (key, s.keyCache[key].value));
  }

  lemma RememberReturn(s: State)
    requires ReturnInv(s) && s.setter.Stored?
    ensures ReturnInv(Step(s, Remember(false)))
  {
    ReturnStep(s, Step(s, Remember(false)), (s.setter.key, s.setter.token));
  }

  lemma StoreReturn(s: State, fault: bool)
    requires Inv(s) && ReturnInv(s) && |Step(s, Store(fault)).issued| < UINT32
    ensures ReturnInv(Step(s, Store(fault)))
  {
    QuietStep(s, Step(s, Store(fault)));
  }

  lemma StepReturnInv(s: State, e: Event)
    requires Inv(s) && ReturnInv(s) && |Step(s, e).issued| < UINT32
    ensures ReturnInv(Step(s, e))
  {
    if e.Lookup? && !e.fault && s.setter.Free? && e.key != "" && e.key in s.keyCache {
      LookupReturn(s, e.key, e.conf);
    } else if e.Remember? && !e.fault && s.setter.Stored? {
      RememberReturn(s);
    } else if e.Store? {
      StoreReturn(s, e.fault);
    } else {
      QuietStep(s, Step(s, e));
    }
  }

  lemma StepIssues(s: State, e: Event)
    ensures |s.issued| <= |Step(s, e).issued|
  {
  }

  lemma {:induction false} RunReturnInv(ttl: nat, es: seq<Event>)
    requires |Run(Init(ttl), es).issued| < UINT32
    ensures ReturnInv(Run(Init(ttl), es))
  {
    if es != [] {
      var s := Run(Init(ttl), es[..|es| - 1]);
      StepIssues(s, es[|es| - 1]);
      RunReturnInv(ttl, es[..|es| - 1]);
      RunInv(ttl, es[..|es| - 1]);
      StepReturnInv(s, es[|es| - 1]);
    }
  }

  /** Before the counter wraps, over every run with expiry and faults: a token returned to a Set
      without a key, or to the first Set with its key, is larger than every token returned before. */
  lemma FreshReturns(ttl: nat, es: seq<Event>, i: nat, j: nat)
    requires |Run(Init(ttl), es).issued| < UINT32
    requires i < j < |Run(Init(ttl), es).returned| && FirstReturn(Run(Init(ttl), es).returned, j)
    ensures Run(Init(ttl), es).returned[i].1 < Run(Init(ttl), es).returned[j].1
  {
    RunReturnInv(ttl, es);
  }

  /** Before the counter wraps each issue is fresh: the numbers from 1 on, each larger than every
      earlier one. */
  lemma FreshTokens(ttl: nat, es: seq<Event>, i: nat, j: nat)
    requires i < j < |Run(Init(ttl), es).issued| < UINT32
    ensures Run(Init(ttl), es).issued[i].token == i + 1
    ensures Run(Init(ttl), es).issued[i].token < Run(Init(ttl), es).issued[j].token
  {
    RunInv(ttl, es);
    TokenOf(Run(Init(ttl), es), i);
    TokenOf(Run(Init(ttl), es), j);
  }

  lemma TokenOf(s: State, i: nat)
    requires Inv(s) && i < |s.issued| < UINT32
    ensures s.issued[i].token == i + 1
  {
  }

  lemma RunSnoc(s: State, es: seq<Event>, e: Event)
    ensures Run(s, es + [e]) == Step(Run(s, es), e)
  {
  }

  /** After a Set under "k" and `late` nanoseconds. */
  lemma SetThenWait(conf: RuleConf, late: nat)
    ensures Run(Init(10), [Lookup("k", conf, false), Store(false), Remember(false), Tick(late)])
            == State(map["1" := Item(conf, 10)], map["k" := Item(1, 10)], 1, late, 10, Free,
                     [Issue(1, "k", conf, true)], [("k", 1)])
  {
    var es := [Lookup("k", conf, false), Store(false), Remember(false), Tick(late)];
    assert es[..3][..2] == es[..2] && es[..2][..1] == es[..1] && es[..1][..0] == [];
    assert Decimal(1) == "1";
    assert Run(Init(10), es[..1]) == Init(10).(setter := Building("k", conf));
    var s := Run(Init(10), es[..2]);
    assert s.setter == Stored("k", 1) && s.issued == [Issue(1, "k", conf, true)];
    assert s.tokenCache == map["1" := Item(conf, 10)];
  }

  /** With expiry the two idle clocks part: a key in use is renewed alone, and then leads to a
      token that no longer resolves. */
  lemma KeyOutlivesToken(conf: RuleConf)
    ensures
      var s := Run(Init(10), [Lookup("k", conf, false), Store(false), Remember(false), Tick(9)]
                             + [Lookup("k", conf, false)] + [Tick(1)] + [EvictToken("1")]);
      && s.returned == [("k", 1), ("k", 1)]
      && "k" in s.keyCache && s.keyCache["k"] == Item(1, 19)
      && Found(s, 1).None?
  {
    var es := [Lookup("k", conf, false), Store(false), Remember(false), Tick(9)];
    SetThenWait(conf, 9);
    RunSnoc(Init(10), es, Lookup("k", conf, false));
    RunSnoc(Init(10), es + [Lookup("k", conf, false)], Tick(1));
    RunSnoc(Init(10), es + [Lookup("k", conf, false)] + [Tick(1)], EvictToken("1"));
    assert Decimal(1) == "1";
  }

  // ---- the object ----

  /** The entries Set builds: those whose plugin is registered and accepts its configuration. */
  function Parsed(reg: Registry, text: seq<(string, Bytes)>): RuleConf {
    if text == [] then []
    else
      var init, (name, value) := Parsed(reg, text[..|text| - 1]), text[|text| - 1];
      if name in reg && reg[name].parse(value).Some? then
        init + [ConfEntry(name, reg[name].parse(value).value)]
      else init
  }

  /** The plugin of this entry is registered and accepts its configuration. */
  predicate Accepted(reg: Registry, e: (string, Bytes)) {
    e.0 in reg && reg[e.0].parse(e.1).Some?
  }

  /** `entries` has, for exactly the accepted positions of `text` and in order, the name there and
      the configuration the plugin parsed. */
  ghost predicate BuildsAt(reg: Registry, text: seq<(string, Bytes)>, entries: RuleConf, ix: seq<nat>) {
    && Increasing(ix) && |ix| == |entries|
    && (forall i: nat :: i in ix <==> i < |text| && Accepted(reg, text[i]))
    && (forall k :: 0 <= k < |ix| ==> ix[k] < |text| && Holds(reg, text[ix[k]], entries[k]))
  }

  ghost predicate Builds(reg: Registry, text: seq<(string, Bytes)>, entries: RuleConf) {
    exists ix :: BuildsAt(reg, text, entries, ix)
  }

  ghost predicate Holds(reg: Registry, e: (string, Bytes), entry: ConfEntry) {
    e.0 in reg && entry.name == e.0 && reg[e.0].parse(e.1) == Some(entry.value)
  }

  /** Set builds exactly the accepted entries, in order, each with its parsed configuration. */
  lemma {:induction false} ParsedExact(reg: Registry, text: seq<(string, Bytes)>) returns (ix: seq<nat>)
    ensures BuildsAt(reg, text, Parsed(reg, text), ix)
  {
    if text == [] {
      ix := [];
    } else {
      var n := |text| - 1;
      var before := ParsedExact(reg, text[..n]);
      var init := Parsed(reg, text[..n]);
      ix := BuildsMore(reg, text, init, before, Parsed(reg, text)[|init|..]);
      assert Parsed(reg, text) == init + Parsed(reg, text)[|init|..];
    }
  }

  lemma BuildsMore(reg: Registry, text: seq<(string, Bytes)>, init: RuleConf, before: seq<nat>, more: RuleConf)
    returns (ix: seq<nat>)
    requires text != [] && BuildsAt(reg, text[..|text| - 1], init, before)
    requires
      var e := text[|text| - 1];
      if Accepted(reg, e) then |more| == 1 && Holds(reg, e, more[0]) else more == []
    ensures BuildsAt(reg, text, init + more, ix)
  {
    var n := |text| - 1;
    assert forall i: nat :: i in before <==> i < n && Accepted(reg, text[i]);
    assert forall k :: 0 <= k < |before| ==> before[k] in before && Holds(reg, text[before[k]], init[k]);
    ix := before;
    if Accepted(reg, text[n]) {
      ix := before + [n];
      assert forall i: nat :: i in ix <==> i in before || i == n;
    }
  }

  /** All of them are resolvable, so a chain over them skips none. */
  lemma {:induction false} ParsedResolvable(reg: Registry, text: seq<(string, Bytes)>)
    ensures Resolvable(reg, Parsed(reg, text)) == Parsed(reg, text)
  {
    if text != [] {
      var init := Parsed(reg, text[..|text| - 1]);
      ParsedResolvable(reg, text[..|text| - 1]);
      if Parsed(reg, text) != init {
        assert Parsed(reg, text)[..|init|] == init;
      }
    }
  }

  /** Also once more plugins are registered. */
  lemma {:induction false} ResolvableGrows(before: Registry, reg: Registry, conf: RuleConf)
    requires before.Keys <= reg.Keys && Resolvable(before, conf) == conf
    ensures Resolvable(reg, conf) == conf
  {
    if conf != [] {
      var init, e := conf[..|conf| - 1], conf[|conf| - 1];
      ResolvableShorter(before, init);
      assert e.name in before && Resolvable(before, init) == init;
      ResolvableGrows(before, reg, init);
    }
  }

  lemma {:induction false} ResolvableShorter(reg: Registry, conf: RuleConf)
    ensures |Resolvable(reg, conf)| <= |conf|
  {
    if conf != [] {
      ResolvableShorter(reg, conf[..|conf| - 1]);
    }
  }

  // ---- from PrepareConf to HTTPReqCall ----

  ghost predicate ReturnsIssued(s: State) {
    && KeysIssued(s)
    && forall j :: 0 <= j < |s.returned| ==> WasStored(s, s.returned[j].0, s.returned[j].1)
  }

  lemma StepReturnsIssued(s: State, e: Event)
    requires ReturnsIssued(s)
    ensures ReturnsIssued(Step(s, e))
  {
    var s' := Step(s, e);
    StepKeysIssued(s, e);
    forall j | 0 <= j < |s'.returned|
      ensures WasStored(s', s'.returned[j].0, s'.returned[j].1)
    {
      if j < |s.returned| {
        assert WasStored(s, s.returned[j].0, s.returned[j].1);
        WasStoredKept(s, e, s.returned[j].0, s.returned[j].1);
      }
    }
  }

  lemma {:induction false} RunReturnsIssued(ttl: nat, es: seq<Event>)
    ensures ReturnsIssued(Run(Init(ttl), es))
  {
    if es != [] {
      RunReturnsIssued(ttl, es[..|es| - 1]);
      StepReturnsIssued(Run(Init(ttl), es[..|es| - 1]), es[|es| - 1]);
    }
  }

  /** Every token a Set returned, to whatever key and by whatever path: there is an issue of that
      token for that key, and over every run with at most 2^32 issues Get finds its configuration
      or nothing, for certain if and only if the token's idle time is not over. */
  lemma ReturnedResolvesExactly(ttl: nat, es: seq<Event>, j: nat) returns (i: nat)
    requires j < |Run(Init(ttl), es).returned| && |Run(Init(ttl), es).issued| <= UINT32
    ensures
      var s := Run(Init(ttl), es);
      var (key, token) := s.returned[j];
      && StoredFor(s.issued, i, key, token)
      && ResolvesTo(ttl, es, token, s.issued[i].conf)
  {
    var s := Run(Init(ttl), es);
    RunReturnsIssued(ttl, es);
    assert WasStored(s, s.returned[j].0, s.returned[j].1);
    i :| StoredFor(s.issued, i, s.returned[j].0, s.returned[j].1);
    IssueResolvesExactly(ttl, es, i);
  }

  /** HTTPReqCall with the cache behind its token, after any run `es` of the cache. A token that
      stands for the entries a Set built from `text`, used while its idle time is not over, runs
      exactly these entries, up to the first that responds. */
  method CallByToken(cache: ConfCache, reg: Registry, raw: RequestModel.RawReq, req: Request.Request, resp: ReqResponse,
                     ghost es: seq<Event>, ghost i: nat, ghost before: Registry, ghost text: seq<(string, Bytes)>)
    returns (result: CallResult<ReqReply>, ghost ran: RuleConf)
    requires req.Valid() && req.Model() == RequestModel.Reset(req.Model()) && resp.Model() == NEW_RESP
    requires cache.Model() == Run(Init(cache.ttl), es)
    modifies cache, req, resp
    ensures cache.Model() == Run(Init(cache.ttl), es + [Get(raw.confToken)])
    ensures result.TokenNotFound? <==> Found(Run(Init(cache.ttl), es), raw.confToken).None?
    ensures
      Prepared(cache.ttl, es, i, raw.confToken, before, text) && before.Keys <= reg.Keys ==>
        var s := World(NEW_RESP, RequestModel.New(raw));
        && result.Reply?
        && Builds(before, text, Parsed(before, text))
        && RunsUpToChange(Runner(reg), Stopped(), Parsed(before, text), ran, s)
        && RequestChain(reg, Parsed(before, text), ran, s)
        && IsReqReply(raw.id, ExecAll(Runner(reg), ran, s), result.reply)
    ensures req.Valid() && req.Model() == RequestModel.Reset(req.Model()) && resp.Model() == NEW_RESP
  {
    RunSnoc(Init(cache.ttl), es, Get(raw.confToken));
    var conf := cache.Get(raw.confToken);
    result, ran := HTTPReqCall(reg, raw, conf, req, resp);
    if Prepared(cache.ttl, es, i, raw.confToken, before, text) && before.Keys <= reg.Keys {
      IssueResolvesExactly(cache.ttl, es, i);
      ParsedResolvable(before, text);
      ResolvableGrows(before, reg, Parsed(before, text));
      ghost var _ := ParsedExact(before, text);
    }
  }

  /** HTTPRespCall in the same way. */
  method RespCallByToken(cache: ConfCache, reg: Registry, raw: RawResp, resp: Response, ghost es: seq<Event>,
                         ghost i: nat, ghost before: Registry, ghost text: seq<(string, Bytes)>)
    returns (result: CallResult<RespReply>, ghost ran: RuleConf)
    requires resp.Valid() && resp.Model() == NewRsp(resp.r)
    requires cache.Model() == Run(Init(cache.ttl), es)
    modifies cache, resp
    ensures cache.Model() == Run(Init(cache.ttl), es + [Get(raw.confToken)])
    ensures result.TokenNotFound? <==> Found(Run(Init(cache.ttl), es), raw.confToken).None?
    ensures
      Prepared(cache.ttl, es, i, raw.confToken, before, text) && before.Keys <= reg.Keys ==>
        && result.Reply?
        && Builds(before, text, Parsed(before, text))
        && ResponseChain(reg, Parsed(before, text), ran, NewRsp(raw))
        && IsSent(ExecAll(RespRunner(reg), ran, NewRsp(raw)), result.reply)
    ensures resp.Valid() && resp.Model() == NewRsp(resp.r)
  {
    RunSnoc(Init(cache.ttl), es, Get(raw.confToken));
    var conf := cache.Get(raw.confToken);
    result, ran := HTTPRespCall(reg, raw, conf, resp);
    if Prepared(cache.ttl, es, i, raw.confToken, before, text) && before.Keys <= reg.Keys {
      IssueResolvesExactly(cache.ttl, es, i);
      ghost var _ := ParsedExact(before, text);
    }
  }

  /** Issue `i` gave the token out for what Set built from `text`, and its idle time is not over. */
  ghost predicate Prepared(ttl: nat, es: seq<Event>, i: nat, token: nat, reg: Registry, text: seq<(string, Bytes)>) {
    var s, last := Run(Init(ttl), es), LastTouch(ttl, es, token);
    && |s.issued| <= UINT32 && i < |s.issued|
    && s.issued[i].stored && s.issued[i].token == token && s.issued[i].conf == Parsed(reg, text)
    && last.Some? && s.now < last.value + ttl
  }

  lemma {:induction false} IssuedGrows(s: State, es: seq<Event>)
    ensures s.issued <= Run(s, es).issued
  {
    if es != [] {
      var t := Run(s, es[..|es| - 1]);
      IssuedGrows(s, es[..|es| - 1]);
      assert t.issued <= Step(t, es[|es| - 1]).issued;
    }
  }

  lemma {:induction false} RunSplit(s: State, a: seq<Event>, b: seq<Event>)
    ensures Run(s, a + b) == Run(Run(s, a), b)
  {
    if b == [] {
      assert a + b == a;
    } else {
      RunSplit(s, a, b[..|b| - 1]);
      assert (a + b)[..|a + b| - 1] == a + b[..|b| - 1];
    }
  }

  /** After any run, the token of a Set that builds its entries is prepared, whatever happens next
      (at most 2^32 issues in all), for as long as the idle time of the token lasts. */
  lemma SetPrepares(ttl: nat, es: seq<Event>, key: string, fault: bool, reg: Registry, text: seq<(string, Bytes)>,
                    more: seq<Event>)
    requires
      var s := Run(Init(ttl), es);
      s.setter.Free? && Step(s, Lookup(key, Parsed(reg, text), fault)).setter.Building?
    requires
      |Run(Init(ttl), es + [Lookup(key, Parsed(reg, text), fault)] + [Store(false)] + more).issued| <= UINT32
    ensures
      var done := es + [Lookup(key, Parsed(reg, text), fault)] + [Store(false)];
      var i, token := |Run(Init(ttl), es).issued|, Run(Init(ttl), done).tokenCounter;
      var last := LastTouch(ttl, done + more, token);
      && last.Some?
      && (Run(Init(ttl), done + more).now < last.value + ttl ==> Prepared(ttl, done + more, i, token, reg, text))
  {
    var looked := es + [Lookup(key, Parsed(reg, text), fault)];
    var done := looked + [Store(false)];
    var i := |Run(Init(ttl), es).issued|;
    RunSnoc(Init(ttl), es, Lookup(key, Parsed(reg, text), fault));
    RunSnoc(Init(ttl), looked, Store(false));
    var s := Run(Init(ttl), done);
    assert s.issued[i] == Issue(s.tokenCounter, key, Parsed(reg, text), true);
    RunSplit(Init(ttl), done, more);
    IssuedGrows(s, more);
    StoredTouched(ttl, done + more, i);
  }

  datatype SetResult = Token(token: nat) | CacheError

  /** ConfCache with its two caches and their clock; `issued` and `returned` are its history. */
  class ConfCache {
    var tokenCache: map<string, Item<RuleConf>>
    var keyCache: map<string, Item<nat>>
    var tokenCounter: nat
    var now: nat
    const ttl: nat
    ghost var issued: seq<Issue>
    ghost var returned: seq<(string, nat)>

    constructor (ttl: nat)
      ensures Model() == Init(ttl)
    {
      tokenCache, keyCache, tokenCounter, now, this.ttl := map[], map[], 0, 0, ttl;
      issued, returned := [], [];
    }

    ghost function Model(): State
      reads this
    {
      State(tokenCache, keyCache, tokenCounter, now, ttl, Free, issued, returned)
    }

    method BuildEntries(reg: Registry, text: seq<(string, Bytes)>) returns (entries: RuleConf)
      ensures entries == Parsed(reg, text) && Builds(reg, text, entries)
    {
      entries := [];
      for i := 0 to |text|
        invariant entries == Parsed(reg, text[..i])
      {
        assert text[..i + 1][..i] == text[..i];
        var (name, value) := text[i];
        if name !in reg {
          continue;
        }
        var conf := reg[name].parse(value);
        if conf.None? {
          continue;
        }
        entries := entries + [ConfEntry(name, conf.value)];
      }
      assert text[..|text|] == text;
      ghost var _ := ParsedExact(reg, text);
    }

    /** Set: one pass through the three locked steps of the step system. */
    method Set(reg: Registry, key: string, text: seq<(string, Bytes)>, keyFault: bool, storeFault: bool,
               rememberFault: bool)
      returns (r: SetResult)
      modifies this
      ensures
        var looked := Step(old(Model()), Lookup(key, Parsed(reg, text), keyFault));
        if looked.setter.Free? then Model() == looked && r == Token(old(keyCache)[key].value)
        else
          var stored := Step(looked, Store(storeFault));
          && Model() == Step(stored, Remember(rememberFault))
          && r == (if storeFault || rememberFault then CacheError else Token(stored.tokenCounter))
      ensures returned == old(returned) + if r.Token? then [(key, r.token)] else []
    {
      if key != "" && key in keyCache && !keyFault {
        var hit := keyCache[key].value;
        keyCache := keyCache[key := Item(hit, now + ttl)];
        returned := returned + [(key, hit)];
        return Token(hit);
      }
      var entries := BuildEntries(reg, text);
      r := Create(key, entries, storeFault, rememberFault);
    }

    /** The rest of Set, on a key it does not know. */
    method Create(key: string, entries: RuleConf, storeFault: bool, rememberFault: bool) returns (r: SetResult)
      modifies this
      ensures
        var stored := Step(old(Model()).(setter := Building(key, entries)), Store(storeFault));
        && Model() == Step(stored, Remember(rememberFault))
        && r == (if storeFault || rememberFault then CacheError else Token(stored.tokenCounter))
      ensures returned == old(returned) + if r.Token? then [(key, r.token)] else []
      ensures tokenCounter == (old(tokenCounter) + 1) % 0x1_0000_0000
    {
      tokenCounter := (tokenCounter + 1) % UINT32;
      var token := tokenCounter;
      issued := issued + [Issue(token, key, entries, !storeFault)];
      if storeFault {
        return CacheError;
      }
      tokenCache := tokenCache[Decimal(token) := Item(entries, now + ttl)];
      if rememberFault {
        return CacheError;
      }
      keyCache := keyCache[key := Item(token, now + ttl)];
      returned := returned + [(key, token)];
      r := Token(token);
    }

    /** Get: an entry found is renewed. */
    method Get(token: nat) returns (conf: Option<RuleConf>)
      modifies this
      ensures conf == Found(old(Model()), token)
      ensures Model() == Step(old(Model()), Event.Get(token))
    {
      var k := Decimal(token);
      if k !in tokenCache {
        return None;
      }
      conf := Some(tokenCache[k].value);
      tokenCache := tokenCache[k := Item(tokenCache[k].value, now + ttl)];
    }
  }
}
