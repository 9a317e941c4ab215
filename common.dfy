/** Small shared vocabulary: an optional value and duplicate-freedom of sequences. */
module Wrappers {

  /** A value that may be absent (a missing storage key, no pending timer). */
  datatype Option<+T> = None | Some(value: T)
}

module Seqs {

  /** No value occurs twice in `s`. */
  predicate NoDuplicates<T(==)>(s: seq<T>)
  {
    forall a, b :: 0 <= a < b < |s| ==> s[a] != s[b]
  }
}
