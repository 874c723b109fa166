/** Option and Result: the "value or nothing" and "value or error" shapes that
    the extension's objects carry as `null` fields and `{success: false, error}`
    responses. */
module Wrappers {

  datatype Option<+T> = None | Some(value: T)

  datatype Result<+R, +E> = Success(value: R) | Failure(error: E)
}
