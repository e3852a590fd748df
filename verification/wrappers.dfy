/** Failure-carrying result types shared by the other modules. */
module Wrappers {

  /** An optional value: the outcome of a search that may find nothing. */
  datatype Option<T> = None | Some(value: T)

  /** A value or the error that the source raises instead of producing it. */
  datatype Result<T, E> = Ok(value: T) | Err(error: E)
}
