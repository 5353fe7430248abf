/** Option and Result, used for absent header columns, parsed cells and error outcomes. */
module Wrappers {
  datatype Option<+T> = None | Some(value: T)

  datatype Result<+R, +E> = Success(value: R) | Failure(error: E)
}
