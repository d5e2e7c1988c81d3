/** Failure-carrying values used throughout the model: an optional value
    (Ruby's `nil` or a value) and the outcome of an operation that can raise. */
module Results {

  /** A value that may be absent, as a Ruby argument that may be `nil`. */
  datatype Option<+T> = None | Some(value: T)

  /** The outcome of an operation that either returns a value or raises. */
  datatype Result<+T, +E> = Ok(value: T) | Err(error: E)
}
