/** Concatenation of a list of lists and its per-element form, used to state partitions and filter-maps. */
module Seqs {

  function Flatten<T>(xss: seq<seq<T>>): seq<T> {
    if xss == [] then [] else xss[0] + Flatten(xss[1..])
  }

  lemma {:induction false} FlattenAppend<T>(a: seq<seq<T>>, b: seq<seq<T>>)
    ensures Flatten(a + b) == Flatten(a) + Flatten(b)
  {
    if a != [] {
      assert (a + b)[1..] == a[1..] + b;
      FlattenAppend(a[1..], b);
    } else {
      assert a + b == b;
    }
  }

  /** The outputs of `f` on each element, concatenated in order. */
  function FlatMap<A, B>(f: A -> seq<B>, xs: seq<A>): seq<B> {
    if xs == [] then [] else f(xs[0]) + FlatMap(f, xs[1..])
  }

  lemma {:induction false} FlatMapAppend<A, B>(f: A -> seq<B>, a: seq<A>, b: seq<A>)
    ensures FlatMap(f, a + b) == FlatMap(f, a) + FlatMap(f, b)
  {
    if a != [] {
      assert (a + b)[1..] == a[1..] + b;
      FlatMapAppend(f, a[1..], b);
    } else {
      assert a + b == b;
    }
  }

  /** The loop form: the outputs for one more element follow those for the prefix. */
  lemma FlatMapSnoc<A, B>(f: A -> seq<B>, xs: seq<A>, i: nat)
    requires i < |xs|
    ensures FlatMap(f, xs[..i + 1]) == FlatMap(f, xs[..i]) + f(xs[i])
  {
    assert xs[..i + 1] == xs[..i] + [xs[i]];
    FlatMapAppend(f, xs[..i], [xs[i]]);
    assert [xs[i]][1..] == [];
  }

  /** Every output comes from some element. */
  lemma {:induction false} FlatMapMember<A, B>(f: A -> seq<B>, xs: seq<A>, y: B)
    requires y in FlatMap(f, xs)
    ensures exists i :: 0 <= i < |xs| && y in f(xs[i])
  {
    if y !in f(xs[0]) {
      FlatMapMember(f, xs[1..], y);
      var i :| 0 <= i < |xs[1..]| && y in f(xs[1..][i]);
      assert y in f(xs[i + 1]);
    }
  }
}
