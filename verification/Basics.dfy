/** Definitions shared by several modules. */
module Basics {

  datatype Option<+T> = None | Some(value: T)

  /** Strictly increasing, within [lo, hi). */
  ghost predicate Increasing(xs: seq<nat>, lo: nat, hi: nat) {
    && (forall k :: 0 <= k < |xs| ==> lo <= xs[k] < hi)
    && (forall a, b :: 0 <= a < b < |xs| ==> xs[a] < xs[b])
  }

  lemma ConcatAssoc<T>(a: seq<T>, b: seq<T>, c: seq<T>)
    ensures a + b + c == a + (b + c)
  {}
}
