/** Failure-carrying values shared by the modules of this model. */
module Options {

  /** A value that may be absent: a matcher that does not match returns `None`. */
  datatype Option<+T> = None | Some(value: T)

  /** The outcome of an operation that can be rejected with an error value. */
  datatype Result<+T, +E> = Ok(value: T) | Err(error: E)
}
