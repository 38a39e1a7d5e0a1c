/** Option and Result, the two sum types the runtime's operations return. */
module Wrappers {

  /** Rust's `Option<T>`. */
  datatype Option<+T> = None | Some(value: T)

  /** Rust's `Result<T, ()>`: the error carries no payload. */
  datatype Result<+T> = Ok(value: T) | Err
}
