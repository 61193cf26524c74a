/** Failure-carrying datatypes shared by the cache and the directory-stream models.
    A Java method that either returns a value or throws a checked exception is
    modelled as a function returning a `Result`. */
module Results {

  /** A value that may be absent, as a nullable reference or an optional failure. */
  datatype Option<+T> = None | Some(value: T)

  /** Either the value a call returns, or the exception it throws. */
  datatype Result<+T, +E> = Ok(value: T) | Err(error: E)
}
