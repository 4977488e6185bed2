/** Optional values and the unit-error results the game code returns. */
module Wrappers {

  /** Rust's `Option<T>`. */
  datatype Option<T> = None | Some(value: T)

  /** Rust's `Result<T, ()>`: the error carries no information. */
  datatype Result<T> = Ok(value: T) | Err
}
