/** Failure-carrying values: a frame read that may fail, and a pipeline result that may be an error. */
module Wrappers {

  /** A read that produced a value, or did not (`cap.read()` returning `(False, None)`). */
  datatype Option<+T> = None | Some(value: T)

  /** A successful value, or the error that ended the run. */
  datatype Result<+R, +E> = Success(value: R) | Failure(error: E)
}
