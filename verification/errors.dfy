/**
 * The error values of the data package and the shapes in which the Go
 * functions return them: a value or an error, or only an error (nil on success).
 */
module Errors {

  datatype Option<+T> = None | Some(value: T) {
    /** The value, or the given default when there is none. */
    function GetOr(default: T): T {
      match this
      case Some(v) => v
      case None => default
    }
  }

  /**
   * ErrRecordNotFound and ErrEditConflict, plus any other error that a
   * store call surfaces unchanged (a timeout, a broken connection, ...).
   */
  datatype Error = RecordNotFound | EditConflict | OtherError(reason: string)

  /** What `(T, error)` returns: the value when the error is nil. */
  datatype Result<+T> = Success(value: T) | Failure(error: Error)

  /** What a bare `error` return carries: nil, or the error. */
  datatype Outcome = Pass | Fail(error: Error)
}
