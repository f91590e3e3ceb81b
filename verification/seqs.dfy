/** Flattening of sequences of sequences, the `flat_map` of the tokenizer pipeline. */
module Seqs {

  /** All the sequences of `xss`, joined in order. */
  function Concat<T>(xss: seq<seq<T>>): (r: seq<T>)
    ensures |xss| == 1 ==> r == xss[0]
  {
    if xss == [] then [] else xss[0] + Concat(xss[1..])
  }

  /** `f` applied to every element of `xs`, the results joined in order. */
  function FlatMap<A, B>(f: A -> seq<B>, xs: seq<A>): (r: seq<B>)
    ensures |xs| == 1 ==> r == f(xs[0])
  {
    if xs == [] then [] else f(xs[0]) + FlatMap(f, xs[1..])
  }

  lemma {:induction false} ConcatAppend<T>(a: seq<seq<T>>, b: seq<seq<T>>)
    ensures Concat(a + b) == Concat(a) + Concat(b)
  {
    if a == [] {
      assert a + b == b;
    } else {
      assert (a + b)[1..] == a[1..] + b;
      ConcatAppend(a[1..], b);
    }
  }

  lemma {:induction false} FlatMapAppend<A, B>(f: A -> seq<B>, a: seq<A>, b: seq<A>)
    ensures FlatMap(f, a + b) == FlatMap(f, a) + FlatMap(f, b)
  {
    if a == [] {
      assert a + b == b;
    } else {
      assert (a + b)[1..] == a[1..] + b;
      FlatMapAppend(f, a[1..], b);
    }
  }

  /** Every element of a flat-mapped sequence comes from the image of some input element. */
  lemma {:induction false} FlatMapMember<A, B>(f: A -> seq<B>, xs: seq<A>, y: B)
    requires y in FlatMap(f, xs)
    ensures exists i :: 0 <= i < |xs| && y in f(xs[i])
  {
    if y in f(xs[0]) {
      assert 0 < |xs| && y in f(xs[0]);
    } else {
      FlatMapMember(f, xs[1..], y);
      var i :| 0 <= i < |xs[1..]| && y in f(xs[1..][i]);
      assert y in f(xs[i + 1]);
    }
  }
}
