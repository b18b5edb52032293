/** Option and Result, the two wrappers the model uses for JavaScript's
    `undefined` and for rejected promises. */
module Wrappers {

  /** `None` stands for JavaScript's `undefined` (a missing array element). */
  datatype Option<+T> = None | Some(value: T)

  /** The outcome of an asynchronous operation: a value or a rejection. */
  datatype Result<+R, +E> = Success(value: R) | Failure(error: E)
}
