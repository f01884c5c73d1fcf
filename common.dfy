/** Failure-carrying wrappers shared by the crawler and the chat modules. */
module Common {

  /** A value that may be absent: a file that does not exist, a header that was not sent. */
  datatype Option<+T> = None | Some(value: T)

  /** The outcome of an operation that the source lets raise an exception. */
  datatype Result<+R, +E> = Success(value: R) | Failure(error: E)
}
