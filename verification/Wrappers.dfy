/** Optional values and fallible results, shared by every module. */
module Wrappers {

  datatype Option<+T> = None | Some(value: T)

  // The arrow::Status codes this code base returns; messages are not modelled.
  datatype Error = IndexError | Invalid | NotImplemented

  datatype Result<+T> = Success(value: T) | Failure(error: Error)
}
