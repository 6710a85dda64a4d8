/** Failure-carrying result types shared by the patcher modules. */
module Wrappers {

  /** A value that may be absent, e.g. a dictionary lookup that would raise `KeyError`. */
  datatype Option<+T> = None | Some(value: T)

  /** Either a computed value or the reason the computation was refused. */
  datatype Result<+R, +E> = Success(value: R) | Failure(error: E)
}
