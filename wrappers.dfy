/** The optional value used wherever the source returns `None` or a regex
    search finds no match, and the distinctness of a sequence's elements. */
module Wrappers {
  datatype Option<+T> = None | Some(value: T)

  /** No element of `xs` occurs twice. */
  predicate Distinct<T(==)>(xs: seq<T>) {
    forall i, j :: 0 <= i < j < |xs| ==> xs[i] != xs[j]
  }
}
