/** Small shared vocabulary: an optional value and duplicate-free sequences. */
module Basics {

  /** Python's `None` or a present value. */
  datatype Option<T> = None | Some(value: T)

  /** No element occurs twice; a directory listing has this shape. */
  predicate Distinct<T(==)>(s: seq<T>) {
    forall i, j :: 0 <= i < j < |s| ==> s[i] != s[j]
  }
}
