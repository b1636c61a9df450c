/** Failure-carrying datatypes shared by the model. */
module Wrappers {

  /** Rust's `Option`. */
  datatype Option<+T> = None | Some(value: T)

  /** The outcome of an operation that may panic: `Ok` carries the value,
      `Err` carries what the panic was about. */
  datatype Result<+T, +E> = Ok(value: T) | Err(error: E)
}
