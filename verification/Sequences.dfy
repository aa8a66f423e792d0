/** What lists of several parts of the model have in common. */
module Sequences {

  /** No element twice. */
  predicate Distinct<T(==)>(s: seq<T>) {
    forall i, j :: 0 <= i < j < |s| ==> s[i] != s[j]
  }
}
