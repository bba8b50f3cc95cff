/** Failure-carrying values shared by the modules of the launcher model. */
module Wrappers {

  /** An optional value: `None` plays the part of Rust's `None` and of Lua's `nil`. */
  datatype Option<+T> = None | Some(value: T)

  /** A value or an error message, as a Rust `Result` surfaced to Lua as an error. */
  datatype Result<+T, +E> = Ok(value: T) | Err(error: E)
}
