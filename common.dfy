/** Option and result wrappers shared by the modules of the dashboard model. */
module Common {

  datatype Option<+T> = None | Some(value: T)

  /** The outcome of an operation that the dashboard either completes or turns into an error message. */
  datatype Result<+T, +E> = Success(value: T) | Failure(error: E)
}
