/** net/http's Header: a map from canonical names to value lists, and the canonical form. */
module HttpHeader {
  import opened Basics

  type Values = map<string, seq<string>>

  /** RFC 9110, section 5.6.2: the characters of a token. */
  predicate IsTokenChar(c: char) {
    'a' <= c <= 'z' || 'A' <= c <= 'Z' || '0' <= c <= '9' || c in "!#$%&'*+-.^_`|~"
  }

  predicate IsToken(s: string) {
    forall i :: 0 <= i < |s| ==> IsTokenChar(s[i])
  }

  function Upper(c: char): char {
    if 'a' <= c <= 'z' then c - 'a' + 'A' else c
  }

  function Lower(c: char): char {
    if 'A' <= c <= 'Z' then c - 'A' + 'a' else c
  }

  function LowerAll(s: string): (r: string)
    ensures |r| == |s|
  {
    if s == "" then "" else [Lower(s[0])] + LowerAll(s[1..])
  }

  /** Upper case at the start and after a hyphen, lower case elsewhere. */
  function Capitalize(s: string, upper: bool): (r: string)
    ensures |r| == |s|
  {
    if s == "" then ""
    else
      var c := if upper then Upper(s[0]) else Lower(s[0]);
      [c] + Capitalize(s[1..], c == '-')
  }

  /** textproto.CanonicalMIMEHeaderKey: a name that is no token is left alone. */
  function Canon(s: string): string {
    if IsToken(s) then Capitalize(s, true) else s
  }

  lemma {:induction false} CapitalizeTwice(s: string, upper: bool)
    ensures Capitalize(Capitalize(s, upper), upper) == Capitalize(s, upper)
  {
    if s != "" {
      var c := if upper then Upper(s[0]) else Lower(s[0]);
      var t := Capitalize(s[1..], c == '-');
      CapitalizeTwice(s[1..], c == '-');
      assert ([c] + t)[1..] == t;
    }
  }

  lemma {:induction false} CapitalizeKeepsLower(s: string, upper: bool)
    ensures LowerAll(Capitalize(s, upper)) == LowerAll(s)
  {
    if s != "" {
      var c := if upper then Upper(s[0]) else Lower(s[0]);
      var t := Capitalize(s[1..], c == '-');
      CapitalizeKeepsLower(s[1..], c == '-');
      assert ([c] + t)[1..] == t;
    }
  }

  lemma CapitalizeKeepsToken(s: string, upper: bool)
    requires IsToken(s)
    ensures IsToken(Capitalize(s, upper))
  {
    forall i | 0 <= i < |s|
      ensures IsTokenChar(Capitalize(s, upper)[i])
    {
      CapitalizeAt(s, upper, i);
      assert IsTokenChar(s[i]);
      CasesKeepToken(s[i]);
    }
  }

  lemma CasesKeepToken(c: char)
    requires IsTokenChar(c)
    ensures IsTokenChar(Upper(c)) && IsTokenChar(Lower(c))
  {
  }

  lemma {:induction false} CapitalizeOfLower(s: string, t: string, upper: bool)
    requires LowerAll(s) == LowerAll(t)
    ensures Capitalize(s, upper) == Capitalize(t, upper)
  {
    assert |LowerAll(s)| == |LowerAll(t)|;
    if s != "" {
      assert Lower(s[0]) == LowerAll(s)[0] == LowerAll(t)[0] == Lower(t[0]);
      assert Upper(s[0]) == Upper(t[0]);
      assert LowerAll(s[1..]) == LowerAll(s)[1..] == LowerAll(t)[1..] == LowerAll(t[1..]);
      var c := if upper then Upper(s[0]) else Lower(s[0]);
      CapitalizeOfLower(s[1..], t[1..], c == '-');
    }
  }

  /** Canonicalising twice is canonicalising once. */
  lemma CanonIdempotent(s: string)
    ensures Canon(Canon(s)) == Canon(s)
  {
    if IsToken(s) {
      CapitalizeTwice(s, true);
      CapitalizeKeepsToken(s, true);
    }
  }

  /** Two tokens name the same field exactly when they agree up to case. */
  lemma CanonCaseInsensitive(s: string, t: string)
    requires IsToken(s) && IsToken(t)
    ensures Canon(s) == Canon(t) <==> LowerAll(s) == LowerAll(t)
  {
    CapitalizeKeepsLower(s, true);
    CapitalizeKeepsLower(t, true);
    if LowerAll(s) == LowerAll(t) {
      CapitalizeOfLower(s, t, true);
    }
  }

  /** The canonical form of a token letter by letter. */
  lemma {:induction false} CapitalizeAt(s: string, upper: bool, i: nat)
    requires i < |s|
    ensures
      var capital := if i == 0 then upper else s[i - 1] == '-';
      Capitalize(s, upper)[i] == if capital then Upper(s[i]) else Lower(s[i])
  {
    if i > 0 {
      var c := if upper then Upper(s[0]) else Lower(s[0]);
      assert c == '-' <==> s[0] == '-';
      CapitalizeAt(s[1..], c == '-', i - 1);
    }
  }

  /** What the canonical form is: a capital first and after each hyphen and small letters otherwise,
      or the name itself if it has a character no token has. */
  lemma CanonExact(s: string, i: nat)
    requires i < |s|
    ensures |Canon(s)| == |s|
    ensures
      var capital := i == 0 || s[i - 1] == '-';
      Canon(s)[i] ==
        if !IsToken(s) then s[i]
        else if capital && 'a' <= s[i] <= 'z' then s[i] - ' '
        else if !capital && 'A' <= s[i] <= 'Z' then s[i] + ' '
        else s[i]
  {
    if IsToken(s) {
      CapitalizeAt(s, true, i);
      CaseArithmetic(s[i]);
    }
  }

  lemma CaseArithmetic(c: char)
    ensures Upper(c) == if 'a' <= c <= 'z' then c - ' ' else c
    ensures Lower(c) == if 'A' <= c <= 'Z' then c + ' ' else c
  {
  }

  function First(vs: seq<string>): string {
    if vs == [] then "" else vs[0]
  }

  /** All values under a canonical name. */
  function Field(h: Values, c: string): Option<seq<string>> {
    if c in h then Some(h[c]) else None
  }

  /** The first value under a canonical name, "" if there is none. */
  function Lookup(h: Values, c: string): string {
    if c in h then First(h[c]) else ""
  }

  function Get(h: Values, key: string): string {
    Lookup(h, Canon(key))
  }

  function Add(h: Values, key: string, value: string): Values {
    var c := Canon(key);
    h[c := (if c in h then h[c] else []) + [value]]
  }

  function Set(h: Values, key: string, value: string): Values {
    h[Canon(key) := [value]]
  }

  function Del(h: Values, key: string): Values {
    h - {Canon(key)}
  }

  lemma AddField(h: Values, key: string, value: string, c: string)
    ensures Field(Add(h, key, value), c) ==
              if Canon(key) != c then Field(h, c)
              else if c in h then Some(h[c] + [value])
              else Some([value])
  {
    assert [] + [value] == [value];
  }

  lemma DelField(h: Values, key: string, c: string)
    ensures Field(Del(h, key), c) == if Canon(key) == c then None else Field(h, c)
  {
  }

  lemma SetField(h: Values, key: string, value: string, c: string)
    ensures Field(Set(h, key, value), c) == if Canon(key) == c then Some([value]) else Field(h, c)
  {
  }

  /** Header maps as Add, Set and Del build them: canonical names, no empty list. */
  ghost predicate Canonical(h: Values) {
    forall c :: c in h ==> Canon(c) == c && h[c] != []
  }

  /** A TextEntry as sent by APISIX: a name and a value. */
  type Text = seq<(string, string)>

  /** The header map a message's entries stand for. */
  function Parse(text: Text): (h: Values) {
    if text == [] then map[]
    else
      var (name, value) := text[|text| - 1];
      Add(Parse(text[..|text| - 1]), name, value)
  }

  lemma ParseSnoc(text: Text, name: string, value: string)
    ensures Parse(text + [(name, value)]) == Add(Parse(text), name, value)
  {
    assert (text + [(name, value)])[..|text|] == text;
  }

  /** The values of the entries that name a field, in the order of the message. */
  function ValuesUnder(text: Text, c: string): seq<string> {
    if text == [] then []
    else
      var (name, value) := text[|text| - 1];
      ValuesUnder(text[..|text| - 1], c) + if Canon(name) == c then [value] else []
  }

  lemma AddValues(h: Values, values: seq<string>, key: string, value: string, c: string)
    requires Field(h, c) == if values == [] then None else Some(values)
    ensures
      var more := values + if Canon(key) == c then [value] else [];
      Field(Add(h, key, value), c) == if more == [] then None else Some(more)
  {
    AddField(h, key, value, c);
    assert [] + [value] == [value] && values + [] == values;
  }

  /** A message's headers: each field has the values of its entries in order, and there is no field
      without an entry. */
  lemma {:induction false} ParseExact(text: Text, c: string)
    ensures
      var values := ValuesUnder(text, c);
      Field(Parse(text), c) == if values == [] then None else Some(values)
  {
    if text != [] {
      var init, e := text[..|text| - 1], text[|text| - 1];
      ParseExact(init, c);
      AddValues(Parse(init), ValuesUnder(init, c), e.0, e.1, c);
    }
  }

  lemma {:induction false} ParseCanonical(text: Text)
    ensures Canonical(Parse(text))
  {
    if text != [] {
      ParseCanonical(text[..|text| - 1]);
      CanonIdempotent(text[|text| - 1].0);
    }
  }

  /** A TextEntry of a reply: without a value it asks for the name's removal. */
  datatype Entry = Entry(name: string, value: Option<string>)

  function Removals(names: seq<string>): seq<Entry> {
    if names == [] then []
    else Removals(names[..|names| - 1]) + [Entry(names[|names| - 1], None)]
  }
}
