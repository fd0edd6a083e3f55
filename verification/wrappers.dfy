/** Rust's `Option` and `Result`, the two ways the library reports a failed
    construction: a missing value, or an error value the caller can inspect. */
module Wrappers {

  datatype Option<+T> = None | Some(value: T)

  datatype Result<+T, +E> = Ok(value: T) | Err(error: E)
}
