/** Optional values and error results shared by the reconciliation modules. */
module Wrappers {

  /** A value that may be absent. */
  datatype Option<+T> = None | Some(value: T)

  /** The outcome of an operation that may fail with an error `E`. */
  datatype Result<+T, +E> = Ok(value: T) | Err(error: E)
}
