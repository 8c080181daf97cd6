/** Failure-carrying datatypes shared by the other modules: Python's
    `None` becomes `Option.None`, and a raised `ValueError` becomes
    `Result.Failure`. */
module Wrappers {

  datatype Option<+T> = None | Some(value: T)

  datatype Result<+R, +E> = Success(value: R) | Failure(error: E)
}
