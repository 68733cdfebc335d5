module Wrappers {

  datatype Option<+T> = None | Some(value: T)

  /** A value, or the error that the source returns instead of it. */
  datatype Result<+T, +E> = Ok(value: T) | Err(error: E)
}
