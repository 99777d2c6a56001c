/** Option and Result, the two wrappers the rest of the model uses for Python's
    `None` and for exceptions. */
module Base {

  datatype Option<+T> = None | Some(value: T)

  /** `Failure` stands for a Python exception raised by the modelled code. */
  datatype Result<+T, +E> = Success(value: T) | Failure(error: E)
}
