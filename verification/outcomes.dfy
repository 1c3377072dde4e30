/** Option and error channels used in place of the source's thrown sentinel errors. */
module Outcomes {

  datatype Option<+T> = None | Some(value: T)

  /** The error kinds an operation can raise. `LoadFailed` stands for the platform's own
      error when a record id cannot be loaded; the model passes it through unchanged.
      `TypeError` is the JavaScript error of calling something that is not a function. */
  datatype Error = Unauthorized | NotFound | LoadFailed | TypeError

  /** A value or the error that was thrown instead. */
  datatype Result<+T> = Success(value: T) | Failure(error: Error)

  /** Completion without a value, or the error that was thrown instead. */
  datatype Outcome = Pass | Fail(error: Error)
}
