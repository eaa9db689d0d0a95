/** Failure-compatible wrappers shared by the model of the Todos table. */
module Wrappers {

  /** A value that may be absent; `None` also stands for SQL NULL. */
  datatype Option<+T> = None | Some(value: T)

  /** The outcome of a statement that the store may reject. */
  datatype Result<+R, +E> = Success(value: R) | Failure(error: E)
}
