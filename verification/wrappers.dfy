/** The Option and Result datatypes used throughout the model.
    A Python function that returns `None` becomes an `Option`; one that raises
    `ValueError` becomes a `Result` whose `Failure` carries the error kind. */
module Wrappers {

  datatype Option<+T> = None | Some(value: T)

  datatype Result<+T, +E> = Success(value: T) | Failure(error: E)
}
