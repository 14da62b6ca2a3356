/** Option and Result, the two shapes Rust's `Option<T>` and `Result<T, E>` take in this model. */
module Base {

  datatype Option<+T> = None | Some(value: T)

  datatype Result<+T, +E> = Ok(value: T) | Err(error: E)
}
