/** Option and Result values shared by the modules of this model. */
module Wrappers {

  /** A value that may be missing (Ruby's nil). */
  datatype Option<+T> = None | Some(value: T)

  /** The outcome of an operation that may raise instead of returning. */
  datatype Result<+T, +E> = Ok(value: T) | Err(error: E)
}
