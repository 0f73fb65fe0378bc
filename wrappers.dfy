/** Option and Result, the two failure-carrying types the codecs and services return. */
module Wrappers {

  datatype Option<+T> = None | Some(value: T)

  /** `Result<T, E>` of Rust: a value on success, an error otherwise. */
  datatype Result<+T, +E> = Ok(value: T) | Err(error: E)
}
