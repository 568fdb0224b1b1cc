/** Plain wrappers used throughout the model: an optional value,
    and the value-or-error pair that Go expresses as `(T, error)`. */
module Wrappers {

  datatype Option<+T> = None | Some(value: T)

  datatype Result<+T, +E> = Success(value: T) | Failure(error: E)
}
