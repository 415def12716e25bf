// Option and Result carriers for the source's "not found" answers and
// SURGSIM_FAILURE branches.
module Wrappers {
  datatype Option<T> = None | Some(value: T)

  datatype Result<T> = Success(value: T) | Failure(error: string)
  {
    predicate IsFailure() { Failure? }
  }
}
