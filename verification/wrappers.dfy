/** Wrappers used across the model: an optional value (a nullable table
    cell) and a value-or-error result (a Python call that either returns or
    raises). */
module Wrappers {

  datatype Option<+T> = None | Some(value: T)

  datatype Result<+T, +E> = Success(value: T) | Failure(error: E)
}
