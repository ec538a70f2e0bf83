/** Option and Result, for the JavaScript values null/undefined and for the
    exceptions the page's load sequence can raise. */
module Wrappers {

  datatype Option<+T> = None | Some(value: T)

  datatype Result<+R, +E> = Success(value: R) | Failure(error: E)
}
