/** Option and Result, the two ways an operation of the graph module reports
    "nothing here" and "this failed". */
module Wrappers {

  datatype Option<+T> = None | Some(value: T)

  datatype Result<+R, +E> = Success(value: R) | Failure(error: E)
}
