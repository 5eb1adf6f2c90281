/** Failure-carrying results shared by the modules of the annotation generator. */
module Wrappers {

  datatype Option<+T> = None | Some(value: T)

  /** The outcome of a step that, in the script, either returns a value or raises. */
  datatype Result<+R, +E> = Success(value: R) | Failure(error: E)
}
