/** Optional values and results with an error channel. */
module Wrappers {

  datatype Option<+T> = None | Some(value: T)

  datatype Result<+T, +E> = Success(value: T) | Failure(error: E)

  /** The exceptions the modelled Java code throws or lets escape. */
  datatype Failure =
    | IllegalArgument(message: string)
    | IndexOutOfBounds
    | UnsupportedOperation
    | IOFailure(message: string)
    | NullPointer
}
