/** Failure-aware result types shared by the spreadsheet model. */
module Wrappers {

  /** A value that may be absent, as `Array.prototype.find` returns `undefined` when nothing matches. */
  datatype Option<+T> = None | Some(value: T)

  /** The outcome of an event handler: the next state, or the runtime error the handler throws. */
  datatype Result<+T, +E> = Success(value: T) | Failure(error: E)
}
