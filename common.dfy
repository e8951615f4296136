/** Small failure-carrying wrappers shared by every module of the model. */
module Common {

  /** A value that may be absent: a missing row, a failed decode, an exception caught by the caller. */
  datatype Option<T> = None | Some(value: T)

  /** The outcome of a command: a value, or the rejection reported to the user. */
  datatype Result<T, E> = Ok(value: T) | Err(error: E)
}
