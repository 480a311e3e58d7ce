/** Failure-carrying result types shared by the model: the source signals
    failure by throwing, the model by returning an explicit value. */
module Wrappers {

  datatype Option<+T> = None | Some(value: T)

  datatype Result<+T, +E> = Success(value: T) | Failure(error: E)
}
