/**
 * Facts about sequences that the proofs of the other modules use. They are
 * stated for an arbitrary element type, so that a proof using them does not
 * reason about the elements at all.
 */
module Seqs {
  /** The total length of a sequence of sequences. */
  function TotalLength<T>(xss: seq<seq<T>>): nat
    decreases |xss|
  {
    if xss == [] then 0 else TotalLength(xss[..|xss| - 1]) + |xss[|xss| - 1]|
  }

  /** One level of flattening: the inner sequences concatenated in order. */
  function Flatten<T>(xss: seq<seq<T>>): (r: seq<T>)
    ensures |r| == TotalLength(xss)
    decreases |xss|
  {
    if xss == [] then [] else Flatten(xss[..|xss| - 1]) + xss[|xss| - 1]
  }

  /**
   * Element `e` of inner sequence `s` sits at position
   * `TotalLength(xss[..s]) + e` of the flattening: the inner sequences keep
   * their order, and so do their elements.
   */
  lemma {:induction false} FlattenAt<T>(xss: seq<seq<T>>, s: int, e: int)
    requires 0 <= s < |xss| && 0 <= e < |xss[s]|
    ensures TotalLength(xss[..s]) + e < |Flatten(xss)|
    ensures Flatten(xss)[TotalLength(xss[..s]) + e] == xss[s][e]
    decreases |xss|
  {
    var n := |xss| - 1;
    var init := xss[..n];
    if s == n {
      assert xss[..s] == init;
    } else {
      assert init[..s] == xss[..s] && init[s] == xss[s];
      FlattenAt(init, s, e);
    }
  }

  /** Flattening distributes over concatenation. */
  lemma {:induction false} FlattenAppend<T>(a: seq<seq<T>>, b: seq<seq<T>>)
    ensures Flatten(a + b) == Flatten(a) + Flatten(b)
    decreases |b|
  {
    if b == [] {
      assert a + b == a;
    } else {
      var n := |b| - 1;
      assert (a + b)[..|a + b| - 1] == a + b[..n];
      assert (a + b)[|a + b| - 1] == b[n];
      FlattenAppend(a, b[..n]);
      assert (Flatten(a) + Flatten(b[..n])) + b[n] == Flatten(a) + (Flatten(b[..n]) + b[n]);
    }
  }

  /** Flattening sequences that are all empty gives the empty sequence. */
  lemma {:induction false} FlattenEmpty<T>(xss: seq<seq<T>>)
    requires forall s :: 0 <= s < |xss| ==> xss[s] == []
    ensures Flatten(xss) == []
    decreases |xss|
  {
    if xss != [] {
      FlattenEmpty(xss[..|xss| - 1]);
    }
  }
}
