/** Option and Result values used in place of Python's None and exceptions. */
module Options {

  datatype Option<+T> = None | Some(value: T)

  /** The outcome of a step that may raise: a value, or the message of the exception. */
  datatype Result<+T> = Ok(value: T) | Err(error: string)
}
