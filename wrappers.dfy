/** Option and Result, the two failure-carrying shapes the modelled Rust code returns. */
module Wrappers {

  datatype Option<+T> = None | Some(value: T)

  /** `Result<R, E>` as in Rust: `Ok(value)` or `Err(error)`. */
  datatype Result<+R, +E> = Ok(value: R) | Err(error: E)

  /** Rust's unit type `()`, used where the source returns `Result<_, ()>`. */
  datatype Unit = Unit
}
