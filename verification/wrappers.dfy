/** Failure-compatible result types shared by the parsing modules. */
module Wrappers {

  /** An optional value: `None` is a failed parse. */
  datatype Option<+T> = None | Some(value: T)

  /** A value or the reason it could not be produced. */
  datatype Result<+R, +E> = Success(value: R) | Failure(error: E)
}
