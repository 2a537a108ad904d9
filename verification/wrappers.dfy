/** Java's `null` and thrown exceptions, made explicit. */
module Wrappers {

  /** A reference that may be `null` (None) or hold a value. */
  datatype Option<+T> = None | Some(value: T)

  /** A call that either returns a value or throws the error it names. */
  datatype Result<+T, +E> = Ok(value: T) | Err(error: E)
}
