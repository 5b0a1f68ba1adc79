/** Failure-compatible helper datatypes shared by the other modules. */
module Wrappers {

  /** A value that may be absent: the model of a Java reference that may be null. */
  datatype Option<+T> = None | Some(value: T)

  /** The outcome of a Java call that either returns a value or throws. */
  datatype Result<+T> = Success(value: T) | Failure(error: string)
}
