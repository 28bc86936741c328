/** Option and Result values for the "found / not found" outcome of a regular
    expression and for the exception that ends an analysis. */
module Wrappers {

  datatype Option<+T> = None | Some(value: T)

  datatype Result<+R, +E> = Success(value: R) | Failure(error: E)
}
