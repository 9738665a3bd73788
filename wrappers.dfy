/** Optional values and results that carry an error, standing in for
    std::optional and for the exceptions the program throws. */
module Wrappers {

  datatype Option<+T> = None | Some(value: T)

  datatype Result<+R, +E> = Success(value: R) | Failure(error: E)
}
