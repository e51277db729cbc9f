/** internal/http/header.go: the header overlay a plugin edits, and its diff. */
module Header {
  import opened Basics
  import opened HttpHeader

  datatype Overlay = Overlay(hdr: Values, raw: Values, deleted: set<string>)

  datatype Edit = SetEdit(key: string, value: string) | DelEdit(key: string)

  function Fresh(text: Text): Overlay {
    Overlay(map[], Parse(text), {})
  }

  function ApplyEdit(o: Overlay, e: Edit): Overlay {
    match e
    case SetEdit(key, value) =>
      o.(hdr := Set(o.hdr, key, value), deleted := o.deleted - {key})
    case DelEdit(key) =>
      var o := if Get(o.raw, key) == "" then o
               else o.(deleted := o.deleted + {key}, raw := Del(o.raw, key));
      o.(hdr := Del(o.hdr, key))
  }

  /** A whole run of edits, over any number of plugins. */
  function Run(text: Text, es: seq<Edit>): Overlay {
    if es == [] then Fresh(text) else ApplyEdit(Run(text, es[..|es| - 1]), es[|es| - 1])
  }

  /** What Header.Get answers for a canonical name. */
  function Seen(o: Overlay, c: string): string {
    if Lookup(o.hdr, c) != "" then Lookup(o.hdr, c) else Lookup(o.raw, c)
  }

  // ---- the history of one name, independent of the overlay ----

  function LastEdit(es: seq<Edit>, c: string): Option<Edit> {
    if es == [] then None
    else if Canon(es[|es| - 1].key) == c then Some(es[|es| - 1])
    else LastEdit(es[..|es| - 1], c)
  }

  /** The spelling of the first Del of the name. */
  function FirstDel(es: seq<Edit>, c: string): Option<string> {
    if es == [] then None
    else
      var before, e := FirstDel(es[..|es| - 1], c), es[|es| - 1];
      if before.None? && e.DelEdit? && Canon(e.key) == c then Some(e.key) else before
  }

  /** A Set with the very spelling of that first Del came after it. */
  predicate SetAgain(es: seq<Edit>, c: string) {
    es != [] &&
    var before, e := es[..|es| - 1], es[|es| - 1];
    SetAgain(before, c) || (e.SetEdit? && FirstDel(before, c) == Some(e.key))
  }

  /** What the edits ask for: the last one wins, without any the original stands. */
  function Intended(text: Text, es: seq<Edit>, c: string): string {
    IntendedAfter(Parse(text), LastEdit(es, c), c)
  }

  function IntendedAfter(orig: Values, last: Option<Edit>, c: string): string {
    match last
    case None => Lookup(orig, c)
    case Some(SetEdit(_, value)) => value
    case Some(DelEdit(_)) => ""
  }

  /** The same for the whole field, as the documentation of Set and Del has it. */
  function IntendedField(orig: Values, last: Option<Edit>, c: string): Option<seq<string>> {
    match last
    case None => Field(orig, c)
    case Some(SetEdit(_, value)) => Some([value])
    case Some(DelEdit(_)) => None
  }

  function FirstOf(field: Option<seq<string>>): string {
    if field.None? then "" else First(field.value)
  }

  /** A field of several values set to the first of them: no entry is emitted. */
  predicate RestKept(orig: Values, last: Option<Edit>, first: Option<string>, c: string) {
    && last.Some? && last.value.SetEdit?
    && c in orig && |orig[c]| > 1 && First(orig[c]) == last.value.value
    && (first.None? || last.value.value == "")
  }

  /** A field whose first value is empty is not deleted. */
  predicate EmptyKept(orig: Values, last: Option<Edit>, c: string) {
    last.Some? && last.value.DelEdit? && c in orig && First(orig[c]) == ""
  }

  /** Deleted, set again in the same spelling, deleted at the end: `Del` sees nothing left in
      the original to mark, and `Set` has taken the first mark away. */
  predicate LostDelete(text: Text, es: seq<Edit>, c: string) {
    && Lookup(Parse(text), c) != ""
    && LastEdit(es, c).Some? && LastEdit(es, c).value.DelEdit?
    && SetAgain(es, c)
  }

  /** Set to the empty string and never deleted: `Get` falls through to the original. */
  predicate HiddenEmpty(text: Text, es: seq<Edit>, c: string) {
    && Lookup(Parse(text), c) != ""
    && LastEdit(es, c).Some? && LastEdit(es, c).value.SetEdit? && LastEdit(es, c).value.value == ""
    && FirstDel(es, c).None?
  }

  /** How the overlay represents the history of one name. */
  ghost predicate Represents(o: Overlay, orig: Values, last: Option<Edit>, first: Option<string>, again: bool,
                             c: string) {
    && (c in o.hdr <==> last.Some? && last.value.SetEdit?)
    && (c in o.hdr ==> o.hdr[c] == [last.value.value])
    && (c in o.raw <==> c in orig && (first.None? || Lookup(orig, c) == ""))
    && (c in o.raw ==> o.raw[c] == orig[c])
    && (forall d :: Canon(d) == c ==>
                      (d in o.deleted <==> Lookup(orig, c) != "" && first == Some(d) && !again))
  }

  /** One edit keeps the representation, for the edited name and for every other. */
  lemma EditRepresents(o: Overlay, orig: Values, last: Option<Edit>, first: Option<string>, again: bool, c: string,
                       e: Edit)
    requires Represents(o, orig, last, first, again, c)
    requires (first.Some? ==> Canon(first.value) == c) && (again ==> first.Some?)
    requires c in orig ==> orig[c] != []
    requires Canon(c) == c
    ensures
      var ours := Canon(e.key) == c;
      Represents(ApplyEdit(o, e), orig,
                 if ours then Some(e) else last,
                 if first.None? && e.DelEdit? && ours then Some(e.key) else first,
                 again || (e.SetEdit? && first == Some(e.key)), c)
  {
  }

  lemma {:induction false} RunRepresents(text: Text, es: seq<Edit>, c: string)
    requires Canon(c) == c
    ensures Represents(Run(text, es), Parse(text), LastEdit(es, c), FirstDel(es, c), SetAgain(es, c), c)
  {
    if es != [] {
      var before, e := es[..|es| - 1], es[|es| - 1];
      ParseCanonical(text);
      RunRepresents(text, before, c);
      FirstDelNames(before, c);
      EditRepresents(Run(text, before), Parse(text), LastEdit(before, c), FirstDel(before, c), SetAgain(before, c),
                     c, e);
    }
  }

  lemma {:induction false} FirstDelNames(es: seq<Edit>, c: string)
    ensures FirstDel(es, c).Some? ==> Canon(FirstDel(es, c).value) == c
    ensures LastEdit(es, c).Some? && LastEdit(es, c).value.DelEdit? ==> FirstDel(es, c).Some?
    ensures FirstDel(es, c).Some? ==> LastEdit(es, c).Some?
    ensures SetAgain(es, c) ==> FirstDel(es, c).Some?
  {
    if es != [] {
      FirstDelNames(es[..|es| - 1], c);
    }
  }

  /** Every overlay is made of canonical, nonempty lists. */
  lemma {:induction false} RunCanonical(text: Text, es: seq<Edit>)
    ensures Canonical(Run(text, es).hdr) && Canonical(Run(text, es).raw)
  {
    ParseCanonical(text);
    if es != [] {
      RunCanonical(text, es[..|es| - 1]);
      CanonIdempotent(es[|es| - 1].key);
    }
  }

  // ---- the diff and its receiver ----

  /** The names HeaderBuild emits a value for. */
  ghost predicate Changed(o: Overlay, c: string) {
    c in o.hdr && (c !in o.raw || First(o.raw[c]) != First(o.hdr[c]))
  }

  ghost function ChangedNames(o: Overlay): set<string> {
    set c | c in o.hdr && Changed(o, c)
  }

  function Sets(hdr: Values, names: seq<string>): seq<Entry>
    requires forall c :: c in names ==> c in hdr
  {
    if names == [] then []
    else
      var c := names[|names| - 1];
      Sets(hdr, names[..|names| - 1]) + [Entry(c, Some(First(hdr[c])))]
  }

  /** The diffs HeaderBuild may emit: the two map iterations have no fixed order. */
  ghost predicate IsDiff(o: Overlay, entries: seq<Entry>) {
    exists ds, cs ::
      && Enumerates(ds, o.deleted)
      && Enumerates(cs, ChangedNames(o))
      && entries == Removals(ds) + Sets(o.hdr, cs)
  }

  function ReceiveOne(h: Values, e: Entry): Values {
    if e.value.None? then Del(h, e.name) else Set(h, e.name, e.value.value)
  }

  /** The receiver: entry by entry, a value replaces the field, no value removes it. */
  function Receive(h: Values, entries: seq<Entry>): Values {
    if entries == [] then h
    else ReceiveOne(Receive(h, entries[..|entries| - 1]), entries[|entries| - 1])
  }

  lemma ReceiveSnoc(h: Values, entries: seq<Entry>, e: Entry)
    ensures Receive(h, entries + [e]) == ReceiveOne(Receive(h, entries), e)
  {
  }

  ghost predicate Names(ds: seq<string>, c: string) {
    exists d :: d in ds && Canon(d) == c
  }

  lemma NamesSnoc(ds: seq<string>, d: string, c: string)
    ensures Names(ds + [d], c) <==> Names(ds, c) || Canon(d) == c
  {
    assert forall x :: x in ds + [d] <==> x in ds || x == d;
  }

  lemma {:induction false} ReceiveDeletes(h: Values, ds: seq<string>, c: string)
    ensures Field(Receive(h, Removals(ds)), c) == if Names(ds, c) then None else Field(h, c)
  {
    if ds != [] {
      var init, d := ds[..|ds| - 1], ds[|ds| - 1];
      assert ds == init + [d];
      ReceiveDeletes(h, init, c);
      ReceiveSnoc(h, Removals(init), Entry(d, None));
      NamesSnoc(init, d, c);
      DelField(Receive(h, Removals(init)), d, c);
    }
  }

  lemma {:induction false} ReceiveSets(h: Values, ds: seq<Entry>, hdr: Values, cs: seq<string>, c: string)
    requires Canonical(hdr) && forall c :: c in cs ==> c in hdr
    ensures Field(Receive(h, ds + Sets(hdr, cs)), c)
            == if c in cs then Some([First(hdr[c])]) else Field(Receive(h, ds), c)
  {
    if cs == [] {
      assert ds + Sets(hdr, cs) == ds;
    } else {
      var init, last := cs[..|cs| - 1], cs[|cs| - 1];
      assert cs == init + [last];
      var e := Entry(last, Some(First(hdr[last])));
      assert ds + Sets(hdr, cs) == (ds + Sets(hdr, init)) + [e];
      ReceiveSets(h, ds, hdr, init, c);
      ReceiveSnoc(h, ds + Sets(hdr, init), e);
      SetField(Receive(h, ds + Sets(hdr, init)), last, First(hdr[last]), c);
    }
  }

  ghost function ReceivedField(o: Overlay, orig: Values, c: string): Option<seq<string>> {
    if Changed(o, c) then Some([First(o.hdr[c])])
    else if exists d :: d in o.deleted && Canon(d) == c then None
    else Field(orig, c)
  }

  /** What the receiver ends up with, name by name, for every iteration order. */
  lemma Received(text: Text, es: seq<Edit>, entries: seq<Entry>, c: string)
    requires IsDiff(Run(text, es), entries)
    ensures Field(Receive(Parse(text), entries), c) == ReceivedField(Run(text, es), Parse(text), c)
  {
    var o := Run(text, es);
    RunCanonical(text, es);
    var ds, cs :| Enumerates(ds, o.deleted) && Enumerates(cs, ChangedNames(o))
                  && entries == Removals(ds) + Sets(o.hdr, cs);
    ReceiveDeletes(Parse(text), ds, c);
    ReceiveSets(Parse(text), Removals(ds), o.hdr, cs, c);
  }

  /** The receiver's first value against the edits, from the representation alone. */
  lemma ReceivedCases(o: Overlay, orig: Values, last: Option<Edit>, first: Option<string>, again: bool, c: string)
    requires Represents(o, orig, last, first, again, c)
    requires first.Some? ==> Canon(first.value) == c
    requires last.Some? && last.value.DelEdit? ==> first.Some?
    requires first.Some? ==> last.Some?
    requires c in orig ==> orig[c] != []
    ensures
      var received := ReceivedField(o, orig, c);
      && (FirstOf(received) == IntendedAfter(orig, last, c)
          <==> !(Lookup(orig, c) != "" && last.Some? && last.value.DelEdit? && again))
      && (received == IntendedField(orig, last, c)
          <==> !(Lookup(orig, c) != "" && last.Some? && last.value.DelEdit? && again)
               && !RestKept(orig, last, first, c) && !EmptyKept(orig, last, c))
  {
    if first.Some? {
      assert first.value in o.deleted <==> Lookup(orig, c) != "" && !again;
    }
    if c in orig && |orig[c]| == 1 {
      assert orig[c] == [First(orig[c])];
    }
  }

  lemma ReceivedExact(text: Text, es: seq<Edit>, entries: seq<Entry>, c: string)
    requires IsDiff(Run(text, es), entries) && Canon(c) == c
    ensures Lookup(Receive(Parse(text), entries), c) == Intended(text, es, c) <==> !LostDelete(text, es, c)
    ensures
      var orig, last, first := Parse(text), LastEdit(es, c), FirstDel(es, c);
      Field(Receive(Parse(text), entries), c) == IntendedField(orig, last, c)
      <==> !LostDelete(text, es, c) && !RestKept(orig, last, first, c) && !EmptyKept(orig, last, c)
  {
    ParseCanonical(text);
    RunRepresents(text, es, c);
    FirstDelNames(es, c);
    Received(text, es, entries, c);
    ReceivedCases(Run(text, es), Parse(text), LastEdit(es, c), FirstDel(es, c), SetAgain(es, c), c);
  }

  /** The whole field, exactly: `Set` is documented to replace all values and `Del` to delete
      them. The receiver's field is what that means unless a deletion was lost, a multi-valued
      field was set to its own first value, or a field whose first value is empty was deleted. */
  lemma WholeFieldExact(text: Text, es: seq<Edit>, entries: seq<Entry>, key: string)
    requires IsDiff(Run(text, es), entries)
    ensures
      var c := Canon(key);
      var orig, last, first := Parse(text), LastEdit(es, c), FirstDel(es, c);
      Field(Receive(orig, entries), c) == IntendedField(orig, last, c)
      <==> !LostDelete(text, es, c) && !RestKept(orig, last, first, c) && !EmptyKept(orig, last, c)
  {
    CanonIdempotent(key);
    ReceivedExact(text, es, entries, Canon(key));
  }

  /** What Get shows of a header: what was asked for or, if that is hidden, the original. */
  function Shown(text: Text, es: seq<Edit>, c: string): string {
    if HiddenEmpty(text, es, c) then Lookup(Parse(text), c) else Intended(text, es, c)
  }

  lemma SeenExact(text: Text, es: seq<Edit>, c: string)
    requires Canon(c) == c
    ensures Seen(Run(text, es), c) == Intended(text, es, c) <==> !HiddenEmpty(text, es, c)
    ensures Seen(Run(text, es), c) == Shown(text, es, c)
  {
    RunRepresents(text, es, c);
    FirstDelNames(es, c);
  }

  /** The diff reply, exactly. For every run of edits, every iteration order and every spelling
      of every name: the receiver ends with what the edits ask for unless a deletion was lost,
      `Get` answers what they ask for unless an empty value was hidden, and the two agree unless
      one of these happened. */
  lemma DiffExact(text: Text, es: seq<Edit>, entries: seq<Entry>, key: string)
    requires IsDiff(Run(text, es), entries)
    ensures var c := Canon(key);
            var received, seen := Get(Receive(Parse(text), entries), key), Seen(Run(text, es), c);
            && (received == Intended(text, es, c) <==> !LostDelete(text, es, c))
            && (seen == Intended(text, es, c) <==> !HiddenEmpty(text, es, c))
            && (received == seen <==> !LostDelete(text, es, c) && !HiddenEmpty(text, es, c))
  {
    CanonIdempotent(key);
    ReceivedExact(text, es, entries, Canon(key));
    SeenExact(text, es, Canon(key));
  }

  lemma ReceivedEveryName(text: Text, es: seq<Edit>, entries: seq<Entry>)
    requires IsDiff(Run(text, es), entries)
    ensures forall key ::
              Get(Receive(Parse(text), entries), key) == Intended(text, es, Canon(key))
              <==> !LostDelete(text, es, Canon(key))
  {
    forall key {
      DiffExact(text, es, entries, key);
    }
  }

  /** The lost deletion happens: one header, deleted, set and deleted again. */
  lemma LostDeleteWitness(entries: seq<Entry>)
    requires IsDiff(Run([("k", "v")], [DelEdit("k"), SetEdit("k", "w"), DelEdit("k")]), entries)
    ensures entries == []
    ensures Get(Receive(Parse([("k", "v")]), entries), "k") == "v"
  {
    var text, es := [("k", "v")], [DelEdit("k"), SetEdit("k", "w"), DelEdit("k")];
    assert es[..2] == [DelEdit("k"), SetEdit("k", "w")] && es[..2][..1] == [DelEdit("k")];
    assert Parse(text[..0]) == map[];
    assert Get(Parse(text), "k") == "v";
    var o := Run(text, es);
    assert Run(text, es[..2][..1][..0]) == Fresh(text);
    assert Run(text, es[..2][..1]).deleted == {"k"};
    assert Run(text, es[..2]).deleted == {};
    assert o.deleted == {} && o.hdr == map[];
    var ds, cs :| Enumerates(ds, o.deleted) && Enumerates(cs, ChangedNames(o))
                  && entries == Removals(ds) + Sets(o.hdr, cs);
    assert ChangedNames(o) == {};
    EnumeratesNothing(ds);
    EnumeratesNothing(cs);
  }

  lemma OneEdit(text: Text, e: Edit, c: string)
    requires Canon(e.key) == c
    ensures LastEdit([e], c) == Some(e) && FirstDel([e], c) == if e.DelEdit? then Some(e.key) else None
    ensures !SetAgain([e], c)
  {
    assert [e][..0] == [];
  }

  /** A header set to the empty string still shows its original value. */
  lemma HiddenEmptyWitness()
    ensures
      var text, es, c := [("k", "v")], [SetEdit("k", "")], Canon("k");
      Intended(text, es, c) == "" && Seen(Run(text, es), c) == "v"
  {
    var text, es, c := [("k", "v")], [SetEdit("k", "")], Canon("k");
    assert Parse(text[..0]) == map[];
    OneEdit(text, es[0], c);
    assert Run(text, es[..0]) == Fresh(text);
  }

  /** A field of two values set to the first of them keeps both. */
  lemma RestKeptWitness(entries: seq<Entry>)
    requires IsDiff(Run([("k", "v"), ("k", "w")], [SetEdit("k", "v")]), entries)
    ensures Field(Receive(Parse([("k", "v"), ("k", "w")]), entries), Canon("k")) == Some(["v", "w"])
  {
    var text, es, c := [("k", "v"), ("k", "w")], [SetEdit("k", "v")], Canon("k");
    ParseSnoc([], "k", "v");
    ParseSnoc([("k", "v")], "k", "w");
    assert [] + [("k", "v")] == [("k", "v")] && [("k", "v")] + [("k", "w")] == text;
    assert [] + ["v"] == ["v"] && ["v"] + ["w"] == ["v", "w"];
    assert Parse(text) == map[c := ["v", "w"]];
    assert Run(text, es[..0]) == Fresh(text);
    Received(text, es, entries, c);
  }

  /** A field whose first value is empty is not deleted. */
  lemma EmptyKeptWitness(entries: seq<Entry>)
    requires IsDiff(Run([("k", "")], [DelEdit("k")]), entries)
    ensures Field(Receive(Parse([("k", "")]), entries), Canon("k")) == Some([""])
  {
    var text, es, c := [("k", "")], [DelEdit("k")], Canon("k");
    ParseSnoc([], "k", "");
    assert [] + [("k", "")] == text && [] + [""] == [""];
    assert Parse(text) == map[c := [""]];
    assert Run(text, es[..0]) == Fresh(text);
    Received(text, es, entries, c);
  }

  /** Without any edit the diff is empty. */
  lemma NoEditsNoDiff(text: Text, entries: seq<Entry>)
    requires IsDiff(Run(text, []), entries)
    ensures entries == []
  {
    var o := Run(text, []);
    var ds, cs :| Enumerates(ds, o.deleted) && Enumerates(cs, ChangedNames(o))
                  && entries == Removals(ds) + Sets(o.hdr, cs);
    assert ChangedNames(o) == {};
    EnumeratesNothing(ds);
    EnumeratesNothing(cs);
  }

  /** The object plugins hold. `text` and `edits` record its history for the contracts. */
  class Header {
    var hdr: Values
    var rawHdr: Values
    var deleteField: set<string>
    ghost const text: Text
    ghost var edits: seq<Edit>

    function Model(): Overlay
      reads this
    {
      Overlay(hdr, rawHdr, deleteField)
    }

    ghost predicate Valid()
      reads this
    {
      Model() == Run(text, edits)
    }

    /** newHeader. */
    constructor (text: Text)
      ensures Valid() && this.text == text && edits == []
      ensures Model() == Fresh(text)
    {
      var hh: Values := map[];
      for i := 0 to |text|
        invariant hh == Parse(text[..i])
      {
        assert text[..i + 1][..i] == text[..i];
        hh := Add(hh, text[i].0, text[i].1);
      }
      assert text[..|text|] == text;
      hdr, rawHdr, deleteField := map[], hh, {};
      this.text, edits := text, [];
    }

    method Set(key: string, value: string)
      requires Valid()
      modifies this
      ensures Valid() && edits == old(edits) + [SetEdit(key, value)]
      ensures Model() == ApplyEdit(old(Model()), SetEdit(key, value))
    {
      hdr := HttpHeader.Set(hdr, key, value);
      deleteField := deleteField - {key};
      edits := edits + [SetEdit(key, value)];
      assert edits[..|edits| - 1] == old(edits);
    }

    method Del(key: string)
      requires Valid()
      modifies this
      ensures Valid() && edits == old(edits) + [DelEdit(key)]
      ensures Model() == ApplyEdit(old(Model()), DelEdit(key))
    {
      if HttpHeader.Get(rawHdr, key) != "" {
        deleteField := deleteField + {key};
        rawHdr := HttpHeader.Del(rawHdr, key);
      }
      hdr := HttpHeader.Del(hdr, key);
      edits := edits + [DelEdit(key)];
      assert edits[..|edits| - 1] == old(edits);
    }

    /** Get: what the edits ask for, unless an empty value is hidden by the original. */
    method Get(key: string) returns (v: string)
      requires Valid()
      ensures v == Seen(Model(), Canon(key))
      ensures v == Intended(text, edits, Canon(key)) <==> !HiddenEmpty(text, edits, Canon(key))
    {
      v := HttpHeader.Get(hdr, key);
      if v == "" {
        v := HttpHeader.Get(rawHdr, key);
      }
      CanonIdempotent(key);
      SeenExact(text, edits, Canon(key));
    }
  }

  method EmitDeleted(deleteField: set<string>) returns (entries: seq<Entry>)
    ensures exists ds :: Enumerates(ds, deleteField) && entries == Removals(ds)
  {
    entries := [];
    ghost var ds: seq<string> := [];
    var marks := deleteField;
    while marks != {}
      invariant marks <= deleteField
      invariant Enumerates(ds, deleteField - marks)
      invariant entries == Removals(ds)
    {
      var d :| d in marks;
      marks := marks - {d};
      entries := entries + [Entry(d, None)];
      EnumerateOneMore(ds, deleteField - marks, d);
      ds := ds + [d];
    }
    assert deleteField - marks == deleteField;
  }

  method EmitChanged(hdr: Values, raw: Values) returns (entries: seq<Entry>)
    requires forall c :: c in hdr ==> hdr[c] != []
    requires forall c :: c in raw ==> raw[c] != []
    ensures exists cs :: Enumerates(cs, ChangedNames(Overlay(hdr, raw, {}))) && entries == Sets(hdr, cs)
  {
    ghost var changed := ChangedNames(Overlay(hdr, raw, {}));
    ghost var cs: seq<string> := [];
    entries := [];
    var names := hdr.Keys;
    while names != {}
      invariant names <= hdr.Keys
      invariant Enumerates(cs, changed - names)
      invariant entries == Sets(hdr, cs)
    {
      var c :| c in names;
      if c !in raw || raw[c][0] != hdr[c][0] {
        entries := entries + [Entry(c, Some(hdr[c][0]))];
        EnumerateOneMore(cs, changed - (names - {c}), c);
        cs := cs + [c];
      }
      names := names - {c};
    }
    assert changed - names == changed;
  }

  /** HeaderBuild: deletions first, then values, each map in whatever order it is walked. */
  method HeaderBuild(h: Header) returns (entries: seq<Entry>)
    requires h.Valid()
    ensures IsDiff(h.Model(), entries)
    ensures forall key ::
              Get(Receive(Parse(h.text), entries), key) == Intended(h.text, h.edits, Canon(key))
              <==> !LostDelete(h.text, h.edits, Canon(key))
  {
    RunCanonical(h.text, h.edits);
    var deletions := EmitDeleted(h.deleteField);
    var sets := EmitChanged(h.hdr, h.rawHdr);
    assert ChangedNames(Overlay(h.hdr, h.rawHdr, {})) == ChangedNames(h.Model());
    entries := deletions + sets;
    ReceivedEveryName(h.text, h.edits, entries);
  }
}
