/** Failure-compatible wrappers used across the model: an optional value
    (JavaScript's `null`/`undefined` versus a value) and a result that is
    either a value or a thrown error, the error being its message. */
module Wrappers {

  datatype Option<+T> = None | Some(value: T)

  datatype Result<+R> = Success(value: R) | Failure(error: string)
}
