/** Success/failure wrappers used in place of Python's `None` results and raised exceptions. */
module Results {

  /** A value that may be absent, e.g. the outcome of a regular-expression search. */
  datatype Option<+T> = None | Some(value: T)

  /** The value of an operation that either returns normally or raises `error`. */
  datatype Result<+T, +E> = Ok(value: T) | Err(error: E)
}
