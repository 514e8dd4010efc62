/** Option and Result values: the model's stand-ins for Rust's `Option` and for a panic. */
module Base {

  datatype Option<+T> = None | Some(value: T)

  /** `Failure` is the outcome of a call that panics in the source. */
  datatype Result<+T, +E> = Success(value: T) | Failure(error: E)
}
