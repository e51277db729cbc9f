/** cloneUrlValues (internal/http/request.go) at the level of Go slices and their arrays. */
module ArgsClone {
  import opened HttpHeader
  import opened Args

  /** A Go slice: a window of `len` elements into an array, growable in place up to `cap`. */
  datatype Slice = Slice(arr: array<string>, off: nat, len: nat, cap: nat) {
    predicate Valid() {
      len <= cap && off + cap <= arr.Length
    }

    function Contents(): seq<string>
      requires Valid()
      reads arr
    {
      arr[off..off + len]
    }

    /** The slice expression s[lo:hi]. */
    function Part(lo: nat, hi: nat): Slice
      requires Valid() && lo <= hi <= cap
    {
      Slice(arr, off + lo, hi - lo, cap - lo)
    }
  }

  type SliceMap = map<string, Slice>

  predicate AllValid(m: SliceMap) {
    forall k :: k in m ==> m[k].Valid()
  }

  function Arrays(m: SliceMap): set<array<string>> {
    set k | k in m :: m[k].arr
  }

  /** The lists hold exactly `v`. */
  ghost predicate Shows(m: SliceMap, v: Values)
    reads Arrays(m)
  {
    && AllValid(m)
    && m.Keys == v.Keys
    && forall k :: k in m ==> m[k].Contents() == v[k]
  }

  /** The pieces of `m` lie one after another in the first `used` elements of one array, each
      full to its capacity. */
  ghost predicate Tiles(m: SliceMap, sv: array<string>, used: nat) {
    && used <= sv.Length
    && (forall k :: k in m ==> m[k].arr == sv && m[k].cap == m[k].len && m[k].off + m[k].len <= used)
    && (forall j, k :: j in m && k in m && j != k ==>
                         m[j].off + m[j].len <= m[k].off || m[k].off + m[k].len <= m[j].off)
    && (forall i :: 0 <= i < used ==> Covered(m, i))
  }

  ghost predicate Covered(m: SliceMap, i: int) {
    exists k :: k in m && m[k].off <= i < m[k].off + m[k].len
  }

  lemma TilesExtend(m: SliceMap, sv: array<string>, used: nat, k: string, n: nat)
    requires Tiles(m, sv, used) && k !in m && used + n <= sv.Length
    ensures Tiles(m[k := Slice(sv, used, n, n)], sv, used + n)
  {
    var m' := m[k := Slice(sv, used, n, n)];
    forall i | 0 <= i < used + n
      ensures Covered(m', i)
    {
      if i < used {
        assert Covered(m, i);
        var j :| j in m && m[j].off <= i < m[j].off + m[j].len;
        assert j in m' && m'[j] == m[j];
      } else {
        assert k in m';
      }
    }
  }

  /** The pieces cut so far hold `want` when the slab's elements are `slab`. */
  ghost predicate Holds(m: SliceMap, slab: seq<string>, used: nat, want: Values) {
    && used <= |slab|
    && forall k :: k in m ==>
         k in want && m[k].off + m[k].len <= used && slab[m[k].off..m[k].off + m[k].len] == want[k]
  }

  lemma HoldsExtend(m: SliceMap, before: seq<string>, after: seq<string>, used: nat, k: string, s: Slice, want: Values)
    requires Holds(m, before, used, want) && k in want
    requires used + s.len <= |after| && before[..used] == after[..used]
    requires s.off == used && after[used..used + s.len] == want[k]
    ensures Holds(m[k := s], after, used + s.len, want)
  {
    forall j | j in m && j != k
      ensures after[m[j].off..m[j].off + m[j].len] == want[j]
    {
      WindowKept(before, after, used, m[j].off, m[j].len);
    }
  }

  lemma WindowKept(before: seq<string>, after: seq<string>, used: nat, off: nat, len: nat)
    requires used <= |before| && used <= |after| && before[..used] == after[..used] && off + len <= used
    ensures before[off..off + len] == after[off..off + len]
  {
    assert before[off..off + len] == before[..used][off..off + len];
    assert after[off..off + len] == after[..used][off..off + len];
  }

  /** The first loop: how long the slab must be. */
  method CountValues(oldV: Values) returns (nv: nat)
    ensures nv == TotalLen(oldV, oldV.Keys)
  {
    nv := 0;
    var todo := oldV.Keys;
    while todo != {}
      invariant todo <= oldV.Keys
      invariant nv + TotalLen(oldV, todo) == TotalLen(oldV, oldV.Keys)
    {
      var k :| k in todo;
      TotalLenSplit(oldV, todo, k);
      nv := nv + |oldV[k]|;
      todo := todo - {k};
    }
  }

  /** cloneUrlValues: one fresh slab, cut into disjoint slices without spare capacity that use
      it up exactly; the two map iterations may run in different orders. */
  method CloneUrlValues(oldV: Values) returns (newV: SliceMap, sv: array<string>)
    ensures fresh(sv)
    ensures Tiles(newV, sv, sv.Length)
    ensures Shows(newV, oldV)
  {
    var nv := CountValues(oldV);
    sv := new string[nv](_ => "");
    newV := map[];
    var todo := oldV.Keys;
    var pos: nat := 0;
    while todo != {}
      invariant Cutting(oldV, newV, sv, sv[..], pos, todo)
      modifies sv
    {
      var k :| k in todo;
      newV, pos := CutOne(oldV, k, newV, sv, pos, todo);
      todo := todo - {k};
    }
    ShowsHeld(newV, sv, oldV);
  }

  /** The names outside `todo` are cut; what is left of the slab is as long as the rest needs. */
  ghost predicate Cutting(oldV: Values, newV: SliceMap, sv: array<string>, slab: seq<string>, pos: nat,
                          todo: set<string>) {
    && todo <= oldV.Keys && newV.Keys == oldV.Keys - todo
    && pos + TotalLen(oldV, todo) == sv.Length
    && Tiles(newV, sv, pos) && Holds(newV, slab, pos, oldV)
  }

  lemma ShowsHeld(m: SliceMap, sv: array<string>, want: Values)
    requires Tiles(m, sv, sv.Length)
    requires Holds(m, sv[..], sv.Length, want) && m.Keys == want.Keys
    ensures Shows(m, want)
  {
    forall k | k in m
      ensures m[k].Contents() == want[k]
    {
      WindowOf(sv, m[k].off, m[k].len);
    }
  }

  lemma WindowOf(sv: array<string>, off: nat, len: nat)
    requires off + len <= sv.Length
    ensures sv[off..off + len] == sv[..][off..off + len]
  {
  }

  /** copy(sv, vv): as many elements as both hold. */
  method Copy(sv: array<string>, pos: nat, vv: seq<string>) returns (n: nat)
    requires pos <= sv.Length
    modifies sv
    ensures n == if sv.Length - pos < |vv| then sv.Length - pos else |vv|
    ensures sv[pos..pos + n] == vv[..n]
    ensures sv[..pos] == old(sv[..pos])
  {
    var room := sv.Length - pos;
    n := if room < |vv| then room else |vv|;
    forall i | 0 <= i < n {
      sv[pos + i] := vv[i];
    }
  }

  /** One turn of the cutting loop: the copy is not cut short, and the piece cannot grow into
      its neighbour. */
  method CutOne(oldV: Values, k: string, newV: SliceMap, sv: array<string>, pos: nat, ghost todo: set<string>)
    returns (newV': SliceMap, pos': nat)
    requires k in todo && Cutting(oldV, newV, sv, sv[..], pos, todo)
    modifies sv
    ensures pos' == pos + |oldV[k]|
    ensures newV' == newV[k := Slice(sv, pos, |oldV[k]|, |oldV[k]|)]
    ensures Cutting(oldV, newV', sv, sv[..], pos', todo - {k})
  {
    CutFits(oldV, k, newV, sv, sv[..], pos, todo);
    ghost var before := sv[..];
    var n := Copy(sv, pos, oldV[k]);
    newV' := newV[k := Slice(sv, pos, n, n)];
    pos' := pos + n;
    CutStep(oldV, k, newV, sv, before, sv[..], pos, todo);
  }

  lemma CutFits(oldV: Values, k: string, newV: SliceMap, sv: array<string>, slab: seq<string>, pos: nat,
                todo: set<string>)
    requires k in todo && Cutting(oldV, newV, sv, slab, pos, todo)
    ensures k in oldV && pos + |oldV[k]| <= sv.Length
  {
    TotalLenSplit(oldV, todo, k);
  }

  lemma CutStep(oldV: Values, k: string, newV: SliceMap, sv: array<string>, before: seq<string>, after: seq<string>,
                pos: nat, todo: set<string>)
    requires k in todo && k in oldV && Cutting(oldV, newV, sv, before, pos, todo)
    requires |after| == sv.Length && pos + |oldV[k]| <= |after|
    requires before[..pos] == after[..pos] && after[pos..pos + |oldV[k]|] == oldV[k]
    ensures
      var n := |oldV[k]|;
      Cutting(oldV, newV[k := Slice(sv, pos, n, n)], sv, after, pos + n, todo - {k})
  {
    var n := |oldV[k]|;
    TotalLenSplit(oldV, todo, k);
    TilesExtend(newV, sv, pos, k, n);
    HoldsExtend(newV, before, after, pos, k, Slice(sv, pos, n, n), oldV);
  }

  // ---- later edits ----

  /** Go's append of one value: in place while there is capacity, otherwise into a new array. */
  method Append(s: Slice, v: string) returns (t: Slice)
    requires s.Valid()
    modifies if s.len < s.cap then {s.arr} else {}
    ensures t.Valid() && t.Contents() == old(s.Contents()) + [v]
    ensures t.arr == s.arr || fresh(t.arr)
    ensures s.Contents() == old(s.Contents())
  {
    if s.len < s.cap {
      s.arr[s.off + s.len] := v;
      t := s.(len := s.len + 1);
    } else {
      var arr := new string[2 * s.len + 1](_ => "");
      forall i | 0 <= i < s.len {
        arr[i] := s.arr[s.off + i];
      }
      arr[s.len] := v;
      t := Slice(arr, 0, s.len + 1, arr.Length);
    }
  }

  /** What a plugin may do with the map `Args` returns: append to a list, assign a new list, assign
      the list of another name, delete a name, write args[name][index] = value, or cut a list to
      args[name][lo:hi], which Go allows up to the capacity. */
  datatype ArgsEdit =
    | AddTo(name: string, value: string)
    | PutTo(name: string, values: seq<string>)
    | Share(name: string, from: string)
    | Drop(name: string)
    | Poke(name: string, index: nat, value: string)
    | Cut(name: string, lo: nat, hi: nat)

  function EditView(v: Values, e: ArgsEdit): Values {
    match e
    case AddTo(name, value) => AddArg(v, name, value)
    case PutTo(name, values) => v[name := values]
    case Share(name, from) => if from in v then v[name := v[from]] else v
    case Drop(name) => v - {name}
    case Poke(name, index, value) =>
      if name in v && index < |v[name]| then v[name := v[name][index := value]] else v
    case Cut(name, lo, hi) =>
      if name in v && lo <= hi <= |v[name]| then v[name := v[name][lo..hi]] else v
  }

  /** Edits whose effect the values alone tell: no list is shared, and none is cut to more than
      it holds, which would show what the array has behind it. */
  predicate Plain(v: Values, e: ArgsEdit) {
    !e.Share? && (e.Cut? && e.name in v ==> e.hi <= |v[e.name]|)
  }

  predicate AllPlain(v: Values, es: seq<ArgsEdit>) {
    es == [] || (AllPlain(v, es[..|es| - 1]) && Plain(EditViews(v, es[..|es| - 1]), es[|es| - 1]))
  }

  function EditViews(v: Values, es: seq<ArgsEdit>): Values {
    if es == [] then v else EditView(EditViews(v, es[..|es| - 1]), es[|es| - 1])
  }

  /** Each list has an array of its own, as lists built by Add from nothing have. */
  ghost predicate Separate(m: SliceMap) {
    forall j, k :: j in m && k in m && j != k ==> m[j].arr != m[k].arr
  }

  lemma SeparatePut(m: SliceMap, name: string, t: Slice)
    requires Separate(m) && forall k :: k in m && k != name ==> m[k].arr != t.arr
    ensures Separate(m[name := t])
  {
  }

  lemma ShowsPut(m: SliceMap, name: string, t: Slice, v: Values, list: seq<string>)
    requires AllValid(m) && m.Keys == v.Keys && t.Valid() && t.Contents() == list
    requires forall k :: k in m && k != name ==> m[k].Contents() == v[k]
    ensures Shows(m[name := t], v[name := list])
  {
  }

  lemma ArraysPut(m: SliceMap, name: string, t: Slice)
    ensures forall a :: a in Arrays(m[name := t]) ==> a in Arrays(m) || a == t.arr
  {
  }

  /** Appending to one list, in place or not, leaves separate ones alone. */
  method AddExisting(m: SliceMap, name: string, value: string, ghost v: Values) returns (m': SliceMap)
    requires AllValid(m) && name in m
    modifies Arrays(m)
    ensures AllValid(m') && forall a :: a in Arrays(m') ==> a in Arrays(m) || fresh(a)
    ensures Separate(m) && old(Shows(m, v)) ==> Separate(m') && Shows(m', AddArg(v, name, value))
  {
    var s := m[name];
    assert s.arr in Arrays(m);
    var t := Append(s, value);
    m' := m[name := t];
    ArraysPut(m, name, t);
    if Separate(m) && old(Shows(m, v)) {
      SeparatePut(m, name, t);
      forall k | k in m && k != name
        ensures m[k].Contents() == v[k]
      {
        assert m[k].Contents() == old(m[k].Contents());
      }
      ShowsPut(m, name, t, v, v[name] + [value]);
    }
  }

  method AddOne(m: SliceMap, name: string, value: string, ghost v: Values) returns (m': SliceMap)
    requires AllValid(m)
    modifies Arrays(m)
    ensures AllValid(m') && forall a :: a in Arrays(m') ==> a in Arrays(m) || fresh(a)
    ensures Separate(m) && old(Shows(m, v)) ==> Separate(m') && Shows(m', AddArg(v, name, value))
  {
    if name in m {
      m' := AddExisting(m, name, value, v);
    } else {
      m' := PutNew(m, name, [value], v);
      assert [] + [value] == [value];
    }
  }

  method PutNew(m: SliceMap, name: string, values: seq<string>, ghost v: Values) returns (m': SliceMap)
    requires AllValid(m)
    ensures AllValid(m') && forall a :: a in Arrays(m') ==> a in Arrays(m) || fresh(a)
    ensures Separate(m) && Shows(m, v) ==> Separate(m') && Shows(m', v[name := values])
  {
    var t := NewList(values);
    m' := m[name := t];
    ArraysPut(m, name, t);
    if Separate(m) && Shows(m, v) {
      SeparatePut(m, name, t);
      ShowsPut(m, name, t, v, values);
    }
  }

  method PokeAt(m: SliceMap, name: string, index: nat, value: string, ghost v: Values)
    requires AllValid(m) && name in m && index < m[name].len
    modifies Arrays(m)
    ensures Separate(m) && old(Shows(m, v)) ==> Shows(m, v[name := v[name][index := value]])
  {
    var s := m[name];
    assert s.arr in Arrays(m);
    s.arr[s.off + index] := value;
    assert s.Contents() == old(s.Contents())[index := value];
  }

  method EditOne(m: SliceMap, e: ArgsEdit, ghost v: Values) returns (m': SliceMap)
    requires AllValid(m)
    modifies Arrays(m)
    ensures AllValid(m') && forall a :: a in Arrays(m') ==> a in Arrays(m) || fresh(a)
    ensures Separate(m) && old(Shows(m, v)) && Plain(v, e) ==> Separate(m') && Shows(m', EditView(v, e))
  {
    match e
    case AddTo(name, value) =>
      m' := AddOne(m, name, value, v);
    case PutTo(name, values) =>
      m' := PutNew(m, name, values, v);
    case Poke(name, index, value) =>
      m' := m;
      if name in m && index < m[name].len {
        PokeAt(m, name, index, value, v);
      }
    case _ =>
      m' := Relink(m, e);
      RelinkKeeps(m, e, v);
  }

  /** The edits that only change which list a name has. */
  function Relink(m: SliceMap, e: ArgsEdit): SliceMap
    requires AllValid(m)
  {
    match e
    case Share(name, from) => if from in m then m[name := m[from]] else m
    case Drop(name) => m - {name}
    case Cut(name, lo, hi) =>
      if name in m && lo <= hi <= m[name].cap then
        m[name := m[name].Part(lo, hi)]
      else m
    case _ => m
  }

  ghost predicate Keeps(m: SliceMap, e: ArgsEdit, v: Values)
    requires AllValid(m)
    reads Arrays(m), Arrays(Relink(m, e))
  {
    && AllValid(Relink(m, e)) && Arrays(Relink(m, e)) <= Arrays(m)
    && (Separate(m) && Shows(m, v) && Plain(v, e) ==> Separate(Relink(m, e)) && Shows(Relink(m, e), EditView(v, e)))
  }

  lemma RelinkKeeps(m: SliceMap, e: ArgsEdit, v: Values)
    requires AllValid(m) && (e.Share? || e.Drop? || e.Cut?)
    ensures Keeps(m, e, v)
  {
    match e
    case Share(name, from) => ShareEdit(m, name, from, v);
    case Drop(name) => DropKeeps(m, name, v);
    case Cut(name, lo, hi) => CutEdit(m, name, lo, hi, v);
  }

  lemma ShareEdit(m: SliceMap, name: string, from: string, v: Values)
    requires AllValid(m)
    ensures Keeps(m, Share(name, from), v)
  {
    if from in m {
      ArraysPut(m, name, m[from]);
      assert m[from].arr in Arrays(m);
    }
  }

  lemma CutEdit(m: SliceMap, name: string, lo: nat, hi: nat, v: Values)
    requires AllValid(m)
    ensures Keeps(m, Cut(name, lo, hi), v)
  {
    var e := Cut(name, lo, hi);
    if name in m && lo <= hi <= m[name].cap {
      assert Relink(m, e) == m[name := m[name].Part(lo, hi)];
      CutKeeps(m, name, lo, hi, v);
    } else {
      assert Relink(m, e) == m;
      if Shows(m, v) && name in m {
        assert |v[name]| == |m[name].Contents()|;
      }
    }
  }

  lemma CutKeeps(m: SliceMap, name: string, lo: nat, hi: nat, v: Values)
    requires AllValid(m) && name in m && lo <= hi <= m[name].cap
    ensures
      var m' := m[name := m[name].Part(lo, hi)];
      && AllValid(m') && Arrays(m') <= Arrays(m)
      && (Separate(m) ==> Separate(m'))
      && (Shows(m, v) && Plain(v, Cut(name, lo, hi)) ==> Shows(m', EditView(v, Cut(name, lo, hi))))
  {
    var s, t := m[name], m[name].Part(lo, hi);
    ArraysPut(m, name, t);
    assert s.arr in Arrays(m);
    if Shows(m, v) && Plain(v, Cut(name, lo, hi)) {
      assert s.Contents() == v[name];
      WindowCut(s.arr[..], s.off, s.len, lo, hi);
      WindowOf(s.arr, s.off, s.len);
      WindowOf(s.arr, t.off, t.len);
      ShowsPut(m, name, t, v, v[name][lo..hi]);
    }
  }

  lemma WindowCut(x: seq<string>, off: nat, len: nat, lo: nat, hi: nat)
    requires lo <= hi <= len && off + len <= |x|
    ensures x[off..off + len][lo..hi] == x[off + lo..off + hi]
  {
    var y := x[off..off + len];
    assert forall i :: 0 <= i < |y| ==> y[i] == x[off + i];
  }

  lemma DropKeeps(m: SliceMap, name: string, v: Values)
    requires AllValid(m)
    ensures AllValid(m - {name}) && Arrays(m - {name}) <= Arrays(m)
    ensures Separate(m) && Shows(m, v) ==> Separate(m - {name}) && Shows(m - {name}, v - {name})
  {
  }

  method NewList(values: seq<string>) returns (t: Slice)
    ensures fresh(t.arr) && t.Valid() && t.Contents() == values
  {
    var arr := new string[|values|](i requires 0 <= i < |values| => values[i]);
    t := Slice(arr, 0, |values|, |values|);
  }

  /** A run of edits touches only the arrays of the map it starts from and new ones. */
  method EditAll(args: SliceMap, edits: seq<ArgsEdit>, ghost v: Values) returns (args': SliceMap)
    requires Shows(args, v)
    modifies Arrays(args)
    ensures Separate(args) && AllPlain(v, edits) ==> Shows(args', EditViews(v, edits))
  {
    args' := args;
    for i := 0 to |edits|
      invariant AllValid(args')
      invariant Separate(args) && AllPlain(v, edits[..i]) ==> Separate(args') && Shows(args', EditViews(v, edits[..i]))
      invariant forall a :: a in Arrays(args') ==> a in Arrays(args) || fresh(a)
    {
      ghost var w := EditViews(v, edits[..i]);
      assert edits[..i + 1][..i] == edits[..i];
      args' := EditOne(args', edits[i], w);
    }
    assert edits[..|edits|] == edits;
  }

  /** Args: the clone is made of arrays nobody else has. */
  method KeepRaw(v: Values) returns (rawArgs: SliceMap)
    ensures Shows(rawArgs, v) && fresh(Arrays(rawArgs))
  {
    var sv;
    rawArgs, sv := CloneUrlValues(v);
  }

  /** Args and any run of edits after it, lists shared between names included: the clone still
      holds what the request arrived with. The plugin's map follows the edits that are plain. */
  method CloneThenEdit(args: SliceMap, v: Values, edits: seq<ArgsEdit>) returns (rawArgs: SliceMap, args': SliceMap)
    requires Shows(args, v)
    modifies Arrays(args)
    ensures Shows(rawArgs, v)
    ensures Separate(args) && AllPlain(v, edits) ==> Shows(args', EditViews(v, edits))
  {
    rawArgs := KeepRaw(v);
    args' := EditAll(args, edits, v);
  }
}
