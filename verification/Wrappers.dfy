/** Results of operations that may fail. */
module Wrappers {
  datatype Option<+T> = None | Some(value: T)
  datatype Result<+T, +E> = Ok(value: T) | Err(error: E)

  /** Equality, without looking into the two values. */
  ghost predicate Same<T>(a: T, b: T) {
    a == b
  }
}
