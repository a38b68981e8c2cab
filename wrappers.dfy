/** Small generic definitions shared by the models. */
module Wrappers {

  /** The optional value used for JavaScript's `null` and Python's `None`. */
  datatype Option<T> = None | Some(value: T)

  /** No element of `s` occurs twice. */
  ghost predicate Distinct<T>(s: seq<T>)
  {
    forall i, j :: 0 <= i < j < |s| ==> s[i] != s[j]
  }

}
