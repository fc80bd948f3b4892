/** Rust's `Option` and `Result`, under their Rust constructor names. */
module Wrappers {

  /** An optional value: `Some(v)` or `None`. */
  datatype Option<+T> = None | Some(value: T)

  /** The outcome of a fallible operation: `Ok(v)` or `Err(e)`. */
  datatype Result<+T, +E> = Ok(value: T) | Err(error: E)
}
