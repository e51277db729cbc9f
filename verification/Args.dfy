/** The query arguments of a request and the diff of FetchChanges (internal/http/request.go). */
module Args {
  import opened Basics
  import opened HttpHeader

  /** url.Values.Add: names are taken as they are. */
  function AddArg(m: Values, name: string, value: string): Values {
    m[name := (if name in m then m[name] else []) + [value]]
  }

  /** The arguments a message's entries stand for. */
  function ParseArgs(text: Text): Values {
    if text == [] then map[]
    else
      var (name, value) := text[|text| - 1];
      AddArg(ParseArgs(text[..|text| - 1]), name, value)
  }

  /** No name has an empty list; Add, Set and Del of url.Values keep it so. */
  predicate NoEmptyList(m: Values) {
    forall n :: n in m ==> m[n] != []
  }

  lemma {:induction false} ParseArgsNoEmptyList(text: Text)
    ensures NoEmptyList(ParseArgs(text))
  {
    if text != [] {
      ParseArgsNoEmptyList(text[..|text| - 1]);
    }
  }

  lemma AddArgField(m: Values, name: string, value: string, n: string)
    ensures Field(AddArg(m, name, value), n) ==
              if name != n then Field(m, n)
              else if n in m then Some(m[n] + [value])
              else Some([value])
  {
    assert [] + [value] == [value];
  }

  /** The values of the entries with this very name, in the order of the message. */
  function ValuesNamed(text: Text, n: string): seq<string> {
    if text == [] then []
    else
      var (name, value) := text[|text| - 1];
      ValuesNamed(text[..|text| - 1], n) + if name == n then [value] else []
  }

  /** A message's arguments: each name has the values of its entries in order, and there is no name
      without an entry. */
  lemma {:induction false} ParseArgsExact(text: Text, n: string)
    ensures
      var values := ValuesNamed(text, n);
      Field(ParseArgs(text), n) == if values == [] then None else Some(values)
  {
    if text != [] {
      var init, e := text[..|text| - 1], text[|text| - 1];
      ParseArgsExact(init, n);
      AddArgField(ParseArgs(init), e.0, e.1, n);
      assert [] + [e.1] == [e.1] && ValuesNamed(init, n) + [] == ValuesNamed(init, n);
    }
  }

  // ---- the diff ----

  function Removed(old': Values, new': Values): set<string> {
    set n | n in old' && n !in new'
  }

  function Updated(old': Values, new': Values): set<string> {
    set n | n in new' && (n !in old' || old'[n] != new'[n])
  }

  /** One entry per value of a name. */
  function Block(name: string, values: seq<string>): seq<Entry> {
    if values == [] then []
    else Block(name, values[..|values| - 1]) + [Entry(name, Some(values[|values| - 1]))]
  }

  function Blocks(m: Values, names: seq<string>): seq<Entry>
    requires forall n :: n in names ==> n in m
  {
    if names == [] then []
    else
      var n := names[|names| - 1];
      Blocks(m, names[..|names| - 1]) + Block(n, m[n])
  }

  /** The diffs FetchChanges may emit, over all iteration orders of both maps. */
  ghost predicate IsArgsDiff(old': Values, new': Values, entries: seq<Entry>) {
    exists ds, ns ::
      && Enumerates(ds, Removed(old', new'))
      && Enumerates(ns, Updated(old', new'))
      && entries == Removals(ds) + Blocks(new', ns)
  }

  method EmitRemoved(old': Values, new': Values) returns (entries: seq<Entry>)
    ensures exists ds :: Enumerates(ds, Removed(old', new')) && entries == Removals(ds)
  {
    entries := [];
    ghost var ds: seq<string> := [];
    var names := old'.Keys;
    while names != {}
      invariant names <= old'.Keys
      invariant Enumerates(ds, Removed(old', new') - names)
      invariant entries == Removals(ds)
    {
      var n :| n in names;
      if n !in new' {
        entries := entries + [Entry(n, None)];
        EnumerateOneMore(ds, Removed(old', new') - (names - {n}), n);
        ds := ds + [n];
      }
      names := names - {n};
    }
    assert Removed(old', new') - names == Removed(old', new');
  }

  method EmitUpdated(old': Values, new': Values) returns (entries: seq<Entry>)
    ensures exists ns :: Enumerates(ns, Updated(old', new')) && entries == Blocks(new', ns)
  {
    entries := [];
    ghost var ns: seq<string> := [];
    var names := new'.Keys;
    while names != {}
      invariant names <= new'.Keys
      invariant Enumerates(ns, Updated(old', new') - names)
      invariant entries == Blocks(new', ns)
    {
      var n :| n in names;
      if n !in old' || old'[n] != new'[n] {
        ghost var before := entries;
        for i := 0 to |new'[n]|
          invariant entries == before + Block(n, new'[n][..i])
        {
          assert new'[n][..i + 1][..i] == new'[n][..i];
          entries := entries + [Entry(n, Some(new'[n][i]))];
        }
        assert new'[n][..|new'[n]|] == new'[n];
        EnumerateOneMore(ns, Updated(old', new') - (names - {n}), n);
        ns := ns + [n];
      }
      names := names - {n};
    }
    assert Updated(old', new') - names == Updated(old', new');
  }

  /** The argument part of FetchChanges. */
  method ArgsDiff(old': Values, new': Values) returns (entries: seq<Entry>)
    requires NoEmptyList(old')
    ensures IsArgsDiff(old', new', entries)
    ensures ReceiveArgs(old', entries) == new' <==> NoEmptyList(new')
  {
    var removals := EmitRemoved(old', new');
    var updates := EmitUpdated(old', new');
    entries := removals + updates;
    ArgsDiffExact(old', new', entries);
  }

  // ---- the receiver ----

  datatype ArgState = ArgState(args: Values, seen: set<string>)

  /** The first entry of a name replaces its list, later ones extend it; no value removes it. */
  function ReceiveArg(s: ArgState, e: Entry): ArgState {
    match e.value
    case None => ArgState(s.args - {e.name}, s.seen + {e.name})
    case Some(v) =>
      ArgState(if e.name in s.seen then AddArg(s.args, e.name, v) else s.args[e.name := [v]],
               s.seen + {e.name})
  }

  function ReceiveFrom(s: ArgState, entries: seq<Entry>): ArgState {
    if entries == [] then s
    else ReceiveArg(ReceiveFrom(s, entries[..|entries| - 1]), entries[|entries| - 1])
  }

  function ReceiveArgs(m: Values, entries: seq<Entry>): Values {
    ReceiveFrom(ArgState(m, {}), entries).args
  }

  lemma {:induction false} ReceiveAppend(s: ArgState, xs: seq<Entry>, ys: seq<Entry>)
    ensures ReceiveFrom(s, xs + ys) == ReceiveFrom(ReceiveFrom(s, xs), ys)
  {
    if ys == [] {
      assert xs + ys == xs;
    } else {
      ReceiveAppend(s, xs, ys[..|ys| - 1]);
      assert (xs + ys)[..|xs + ys| - 1] == xs + ys[..|ys| - 1];
    }
  }

  lemma {:induction false} ReceiveRemovals(s: ArgState, ds: seq<string>)
    ensures
      var r := ReceiveFrom(s, Removals(ds));
      && (forall n :: Field(r.args, n) == if n in ds then None else Field(s.args, n))
      && (forall n :: n in r.seen <==> n in s.seen || n in ds)
  {
    if ds != [] {
      var init, d := ds[..|ds| - 1], ds[|ds| - 1];
      ReceiveRemovals(s, init);
      ReceiveAppend(s, Removals(init), [Entry(d, None)]);
      assert [Entry(d, None)][..0] == [];
      assert ds == init + [d];
    }
  }

  lemma ReceiveOne(s: ArgState, e: Entry)
    ensures ReceiveFrom(s, [e]) == ReceiveArg(s, e)
  {
    assert [e][..0] == [];
  }

  /** One more value of a block that the receiver has taken `init` of. */
  lemma BlockStep(s: ArgState, n: string, init: seq<string>, v: string)
    requires n !in s.seen
    ensures
      var mid := if init == [] then s else ArgState(s.args[n := init], s.seen + {n});
      ReceiveArg(mid, Entry(n, Some(v))) == ArgState(s.args[n := init + [v]], s.seen + {n})
  {
    if init == [] {
      assert init + [v] == [v];
    } else {
      assert s.args[n := init][n := init + [v]] == s.args[n := init + [v]];
      assert s.seen + {n} + {n} == s.seen + {n};
    }
  }

  lemma {:induction false} ReceiveBlock(s: ArgState, n: string, vs: seq<string>)
    requires n !in s.seen
    ensures ReceiveFrom(s, Block(n, vs)) == if vs == [] then s else ArgState(s.args[n := vs], s.seen + {n})
  {
    if vs != [] {
      var init, v := vs[..|vs| - 1], vs[|vs| - 1];
      var e := Entry(n, Some(v));
      ReceiveBlock(s, n, init);
      ReceiveAppend(s, Block(n, init), [e]);
      ReceiveOne(ReceiveFrom(s, Block(n, init)), e);
      BlockStep(s, n, init, v);
      assert vs == init + [v];
    }
  }

  lemma {:induction false} ReceiveBlocks(s: ArgState, m: Values, ns: seq<string>)
    requires forall n :: n in ns ==> n in m && n !in s.seen
    requires forall i, j :: 0 <= i < j < |ns| ==> ns[i] != ns[j]
    ensures
      var r := ReceiveFrom(s, Blocks(m, ns));
      && (forall n :: Field(r.args, n) == if n in ns && m[n] != [] then Some(m[n]) else Field(s.args, n))
      && (forall n :: n in r.seen ==> n in s.seen || n in ns)
  {
    if ns != [] {
      var init, n := ns[..|ns| - 1], ns[|ns| - 1];
      assert ns == init + [n];
      ReceiveBlocks(s, m, init);
      ReceiveAppend(s, Blocks(m, init), Block(n, m[n]));
      ReceiveBlock(ReceiveFrom(s, Blocks(m, init)), n, m[n]);
    }
  }

  /** What the receiver ends up with, name by name, for every iteration order. */
  lemma ReceivedArgs(old': Values, new': Values, entries: seq<Entry>)
    requires IsArgsDiff(old', new', entries)
    ensures forall n ::
              Field(ReceiveArgs(old', entries), n) ==
                if n !in new' then None
                else if new'[n] == [] then Field(old', n)
                else Some(new'[n])
  {
    var ds, ns :| Enumerates(ds, Removed(old', new')) && Enumerates(ns, Updated(old', new'))
                  && entries == Removals(ds) + Blocks(new', ns);
    var s := ArgState(old', {});
    ReceiveAppend(s, Removals(ds), Blocks(new', ns));
    ReceiveRemovals(s, ds);
    assert forall n :: n in ns ==> n in Updated(old', new') && n !in Removed(old', new');
    assert forall n :: n in ns ==> n in new' && n !in ds;
    ReceiveBlocks(ReceiveFrom(s, Removals(ds)), new', ns);
  }

  /** The argument diff, exactly: for every old and new map and every iteration order the
      receiver ends with the new map if and only if that has no empty list. */
  lemma ArgsDiffExact(old': Values, new': Values, entries: seq<Entry>)
    requires IsArgsDiff(old', new', entries) && NoEmptyList(old')
    ensures ReceiveArgs(old', entries) == new' <==> NoEmptyList(new')
  {
    ReceivedArgs(old', new', entries);
    var r := ReceiveArgs(old', entries);
    if NoEmptyList(new') {
      forall n
        ensures n in r <==> n in new'
        ensures n in r ==> r[n] == new'[n]
      {
        assert Field(r, n) == Field(new', n);
      }
      assert r.Keys == new'.Keys;
    } else {
      var n :| n in new' && new'[n] == [];
      assert Field(r, n) == Field(old', n);
      assert Field(r, n) != Field(new', n);
    }
  }

  /** A name emptied in place of being deleted keeps its old values at the receiver. */
  lemma EmptyListKept(old': Values, new': Values, entries: seq<Entry>, n: string)
    requires IsArgsDiff(old', new', entries) && n in old' && n in new' && new'[n] == []
    ensures Field(ReceiveArgs(old', entries), n) == Some(old'[n])
  {
    ReceivedArgs(old', new', entries);
  }

  lemma {:induction false} BlocksMention(m: Values, ns: seq<string>, e: Entry)
    requires forall n :: n in ns ==> n in m
    requires e in Blocks(m, ns)
    ensures e.name in ns
  {
    var init, n := ns[..|ns| - 1], ns[|ns| - 1];
    if e in Block(n, m[n]) {
      BlockMentions(n, m[n], e);
    } else {
      BlocksMention(m, init, e);
    }
  }

  lemma {:induction false} BlockMentions(n: string, vs: seq<string>, e: Entry)
    requires e in Block(n, vs)
    ensures e.name == n
  {
    if e in Block(n, vs[..|vs| - 1]) {
      BlockMentions(n, vs[..|vs| - 1], e);
    }
  }

  lemma {:induction false} RemovalsMention(ds: seq<string>, e: Entry)
    requires e in Removals(ds)
    ensures e.name in ds
  {
    if e in Removals(ds[..|ds| - 1]) {
      RemovalsMention(ds[..|ds| - 1], e);
    }
  }

  /** Names that did not change are not mentioned; equal maps give the empty diff. */
  lemma OnlyChangesMentioned(old': Values, new': Values, entries: seq<Entry>)
    requires IsArgsDiff(old', new', entries)
    ensures forall e :: e in entries ==> Field(old', e.name) != Field(new', e.name)
    ensures old' == new' ==> entries == []
  {
    var ds, ns :| Enumerates(ds, Removed(old', new')) && Enumerates(ns, Updated(old', new'))
                  && entries == Removals(ds) + Blocks(new', ns);
    forall e | e in entries
      ensures Field(old', e.name) != Field(new', e.name)
    {
      if e in Removals(ds) {
        RemovalsMention(ds, e);
      } else {
        BlocksMention(new', ns, e);
      }
    }
    if old' == new' {
      assert Removed(old', new') == {} && Updated(old', new') == {};
      EnumeratesNothing(ds);
      EnumeratesNothing(ns);
    }
  }

  // ---- lengths, summed in any order ----

  ghost function TotalLen(m: Values, keys: set<string>): nat
    requires keys <= m.Keys
  {
    if keys == {} then 0
    else
      var k :| k in keys;
      |m[k]| + TotalLen(m, keys - {k})
  }

  lemma {:induction false} TotalLenSplit(m: Values, keys: set<string>, k: string)
    requires keys <= m.Keys && k in keys
    ensures TotalLen(m, keys) == |m[k]| + TotalLen(m, keys - {k})
    decreases keys
  {
    var j :| j in keys && TotalLen(m, keys) == |m[j]| + TotalLen(m, keys - {j});
    if j != k {
      TotalLenSplit(m, keys - {j}, k);
      TotalLenSplit(m, keys - {k}, j);
      assert keys - {j} - {k} == keys - {k} - {j};
    }
  }

  lemma {:induction false} BlockLen(name: string, values: seq<string>)
    ensures |Block(name, values)| == |values|
  {
    if values != [] {
      BlockLen(name, values[..|values| - 1]);
    }
  }

  lemma {:induction false} BlocksLen(m: Values, ns: seq<string>, keys: set<string>)
    requires Enumerates(ns, keys) && keys <= m.Keys
    ensures |Blocks(m, ns)| == TotalLen(m, keys)
  {
    if ns == [] {
      assert keys == {};
    } else {
      var init, n := ns[..|ns| - 1], ns[|ns| - 1];
      EnumerateOneLess(ns, keys);
      BlocksLen(m, init, keys - {n});
      BlockLen(n, m[n]);
      TotalLenSplit(m, keys, n);
    }
  }
}
