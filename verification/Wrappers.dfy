/** Absent values and failures. */
module Wrappers {
  datatype Option<+T> = None | Some(value: T)

  datatype Attempt<+T, +E> = Ok(value: T) | Err(error: E)
}
