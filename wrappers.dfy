/** Failure-compatible wrapper datatypes shared by every module of the model. */
module Wrappers {

  /** A value that may be absent (JavaScript `null` or `undefined`). */
  datatype Option<+T> = None | Some(value: T)

  /** The outcome of an operation that can fail with an error of type E (a thrown Error). */
  datatype Result<+T, +E> = Success(value: T) | Failure(error: E)
}
