/** Option and result types shared by the other modules. */
module Wrappers {

  /** A value that may be absent; `None` stands for a JavaScript `undefined`. */
  datatype Option<+T> = None | Some(value: T)

  /** The value of a step that can abort the build with a fatal error. */
  datatype Result<+R, +E> = Success(value: R) | Failure(error: E)

  /** The outcome of a check that returns nothing but may fail. */
  datatype Outcome<+E> = Pass | Fail(error: E)
}
