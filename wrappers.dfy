/** Failure-compatible wrappers shared by the barrier model. */
module Wrappers {

  /** A value that may be absent; also stands for a NOMAD value that is still undefined. */
  datatype Option<+T> = None | Some(value: T)

  /** The outcome of an operation that the source can abort with an error. */
  datatype Result<+R, +E> = Ok(value: R) | Err(error: E)
}
