/** Option and Result, used for the keys a record may lack and for the
    exception one formatter can raise. */
module Wrappers {

  datatype Option<+T> = None | Some(value: T)

  datatype Result<+R, +E> = Success(value: R) | Failure(error: E)
}
