/** Failure-carrying results shared by the modules of this model. */
module Wrappers {

  datatype Option<+T> = None | Some(value: T)

  /** The value a computation produced, or the error it reports (the source's exceptions). */
  datatype Result<+T, +E> = Success(value: T) | Failure(error: E)
}
