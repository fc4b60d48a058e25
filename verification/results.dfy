/** Failure-carrying values shared by every module of the model. */
module Results {

  /** A value that may be absent: Python's `None`, or a C `NULL` pointer. */
  datatype Option<+T> = None | Some(value: T)

  /** The outcome of an operation that either returns a value or raises. */
  datatype Result<+T, +E> = Ok(value: T) | Err(error: E)
}
