/** The two failure-compatible datatypes the model uses: an optional value
    (Python's `None` versus a value) and a result that is either a value or
    the exception the Python code would raise. */
module Wrappers {

  datatype Option<+T> = None | Some(value: T)

  datatype Result<+R, +E> = Success(value: R) | Failure(error: E)
}
