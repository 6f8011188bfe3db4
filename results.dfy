/** The optional value and the value-or-error that the models return where
    Go returns a nil pointer, an `ok` flag or an `error`. */
module Results {

  datatype Option<T> = None | Some(value: T)

  /** A value, or the error that stopped its computation. */
  datatype Result<T, E> = Ok(value: T) | Err(error: E)
}
