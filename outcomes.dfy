/** Python exceptions that the modelled code raises or lets through, and the
    result and optional types the model uses in their place. */
module Outcomes {

  /** The exceptions the core can raise: a failed `assert` statement, a
      division by a zero elapsed time, and any network error (niquests'
      exceptions derive from `OSError`). */
  datatype PyError = AssertionError | ZeroDivisionError | OSError

  /** Either a normal return value or the exception that was raised. */
  datatype Result<+T> = Ok(value: T) | Err(error: PyError)

  /** A Python value that may be `None`. */
  datatype Option<+T> = None | Some(value: T)
}
