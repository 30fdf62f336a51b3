/** The failure-compatible datatypes the rest of the model uses in place of
    C's NULL pointers and process exits. */
module Wrappers {

  /** A value that may be absent: `None` stands for a C NULL pointer. */
  datatype Option<+T> = None | Some(value: T)

  /** The outcome of an operation that either produces a value or ends the
      process (`exit(1)`, a failed `assert`, a NULL dereference). */
  datatype Result<+T, +E> = Success(value: T) | Failure(error: E)
}
