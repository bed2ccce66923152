/** Optional values and results with an error, shared by the partitioner modules. */
module Outcomes {

  datatype Option<+T> = None | Some(value: T)

  /** The outcome of an operation that may raise one of the source's errors. */
  datatype Result<+T, +E> = Success(value: T) | Failure(error: E)
}
