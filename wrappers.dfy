/**
 * Small definitions every module shares: a value that may be absent (a
 * null reference, an undefined property), and a sequence in which nothing
 * occurs twice.
 */
module Wrappers {
  datatype Option<T> = None | Some(value: T)

  /** No entry occurs twice. */
  predicate Distinct<T(==)>(s: seq<T>) {
    forall i, j :: 0 <= i < j < |s| ==> s[i] != s[j]
  }
}
