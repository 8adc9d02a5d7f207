/** The exception kinds the core can raise, and a result type that
    carries either a value or the exception that was raised. */
module Common {

  /** ValueError: wrong length, out-of-range value or malformed mode.
      KeyError: a mode that passes the validating pattern but holds a
      character that is not a colour letter (a trailing newline).
      IndexError: a desired pattern with fewer rounds than the search asks
      for. */
  datatype Error = ValueError | KeyError | IndexError

  datatype Result<T> = Success(value: T) | Failure(error: Error)

  datatype Option<T> = None | Some(value: T)
}
