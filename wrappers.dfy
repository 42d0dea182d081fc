/** Option and Result values, the model's stand-ins for C#'s nullable
    references and for exceptions that an operation raises. */
module Wrappers {

  datatype Option<+T> = None | Some(value: T)

  datatype Result<+R, +E> = Success(value: R) | Failure(error: E)
}
