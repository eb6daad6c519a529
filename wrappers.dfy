/** Optional values and results with an error, used for every parse and every
    operation of the pipeline that can raise. */
module Wrappers {

  datatype Option<+T> = None | Some(value: T)

  datatype Result<+T, +E> = Success(value: T) | Failure(error: E)
}
