/** Failure-carrying result types shared by the chain and wallet models. */
module Wrappers {

  /** A value that may be absent: a missing file, a failed parse, a rejected token. */
  datatype Option<+T> = None | Some(value: T)

  /** The outcome of an operation that raises an exception on failure. */
  datatype Result<+T, +E> = Ok(value: T) | Err(error: E)
}
