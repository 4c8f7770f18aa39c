/** Option and Result values standing in for Java's null returns and exceptions. */
module Wrappers {
  datatype Option<T> = None | Some(value: T)

  /** The Java exception classes the modelled code can throw. */
  datatype Exception =
    | IllegalArgument
    | IllegalState
    | NumberFormat
    | IndexOutOfBounds

  datatype Result<T> = Ok(value: T) | Err(error: Exception)

  /** How a void Java method ended: normally, or by throwing. */
  datatype Status = Completed | Raised(error: Exception)
}
