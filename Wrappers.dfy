/** Failure-carrying values shared by the whole model: Python's `None`
    becomes `None`, and a raised `ValueError` becomes `Failure(...)`. */
module Wrappers {

  datatype Option<+T> = None | Some(value: T)

  datatype Result<+R, +E> = Success(value: R) | Failure(error: E)
}
