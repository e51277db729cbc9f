/** Types shared by every module: optional values and byte strings. */
module Basics {

  datatype Option<+T> = None | Some(value: T)

  type Byte = b: int | 0 <= b < 256
  type Bytes = seq<Byte>

  ghost predicate Increasing(ix: seq<nat>) {
    forall j, k :: 0 <= j < k < |ix| ==> ix[j] < ix[k]
  }

  /** Some enumeration of a finite set: every member once, in an arbitrary order.
      A Go `range` over a map visits its keys in such an order. */
  ghost predicate Enumerates<T(!new)>(order: seq<T>, s: set<T>) {
    && (forall x :: x in order <==> x in s)
    && (forall i, j :: 0 <= i < j < |order| ==> order[i] != order[j])
  }

  lemma EnumeratesNothing<T(!new)>(order: seq<T>)
    ensures Enumerates(order, {}) <==> order == []
  {
    if order != [] {
      assert order[0] in order;
    }
  }

  lemma EnumerateOneLess<T(!new)>(xs: seq<T>, s: set<T>)
    requires xs != [] && Enumerates(xs, s)
    ensures xs[|xs| - 1] in s && Enumerates(xs[..|xs| - 1], s - {xs[|xs| - 1]})
  {
    var init, last := xs[..|xs| - 1], xs[|xs| - 1];
    assert forall x :: x in xs <==> x in init || x == last;
  }

  lemma EnumerateOneMore<T(!new)>(xs: seq<T>, s: set<T>, x: T)
    requires x in s && Enumerates(xs, s - {x})
    ensures Enumerates(xs + [x], s)
    ensures (xs + [x])[..|xs|] == xs
  {
  }
}
