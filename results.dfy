/** Option and Result values used in place of Python's None and exceptions. */
module Results {

  /** A value that may be absent, as an element that a CSS selector did not find. */
  datatype Option<+T> = None | Some(value: T)

  /** Either a value or the error that stopped its computation. */
  datatype Result<+T, +E> = Ok(value: T) | Err(error: E)
}
