/** Helper types shared by the model. */
module Wrappers {

  /** An optional value; stands in for Java's `null` and for sentinel objects. */
  datatype Option<+T> = None | Some(value: T)

  function Max(a: int, b: int): int {
    if a < b then b else a
  }
}
