/** What several components share. */
module Prelude {
  datatype Option<T> = None | Some(value: T)

  const BYTE_RANGE: nat := 256

  type Byte = b: nat | b < BYTE_RANGE

  ghost predicate NoRepeats<X>(s: seq<X>) {
    forall i, j | 0 <= i < j < |s| :: s[i] != s[j]
  }
}
