/** Result types shared by the model. */
module Wrappers {

  /** A nullable pointer or an optional value. */
  datatype Option<+T> = None | Some(value: T)

  /** The C++ exceptions that can reach the request pipeline. */
  datatype Exception =
    | RuntimeError(what: string)
    | InvalidArgument(what: string)
    | OutOfRange(what: string)
    | BadFunctionCall(what: string)

  /** A value, or the exception thrown instead of returning one. */
  datatype Result<+T> = Ok(value: T) | Err(error: Exception)
}
