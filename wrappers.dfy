/** The Option and Result types shared by both drivers. */
module Wrappers {

  datatype Option<+T> = None | Some(value: T)

  /** The outcome of a load: a value, or the coarse error kind the driver reports. */
  datatype Result<+T, +E> = Success(value: T) | Failure(error: E)
}
