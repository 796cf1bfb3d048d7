/** Failure-carrying values shared by the grid engine and the backend. */
module Wrappers {

  /** An optional value: Rust's `Option<T>`, and also an absent session field. */
  datatype Option<T> = None | Some(value: T)

  /** Rust's `Result<T, ()>`: the error carries no information. */
  datatype Result<T> = Ok(value: T) | Err
}
