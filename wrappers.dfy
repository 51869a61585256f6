/** Small failure-carrying datatypes shared by the rest of the model. */
module Wrappers {
  datatype Option<+T> = None | Some(value: T)

  /** A value, or the message of the exception raised instead. */
  datatype Result<+T> = Success(value: T) | Failure(error: string)

  /** Errors the translator reports in its error list (never raised). */
  datatype Error =
    | InvalidText(msg: string, text: string)
    | CannotTranslate(msg: string, text: string, cause: string)
}
