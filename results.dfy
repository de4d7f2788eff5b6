/** The error-carrying result type shared by every module of the model. */
module Results {

  /** Rust's `Result<T, E>`: `Ok` carries a value, `Err` an error. */
  datatype Result<+T, +E> = Ok(value: T) | Err(error: E)
}
