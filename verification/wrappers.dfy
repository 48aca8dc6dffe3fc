/** Optional values and results used throughout the model. */
module Wrappers {

  /** An optional value; `None` stands for a field left out of the options object. */
  datatype Option<+T> = None | Some(value: T)

  /** Either a value or an error, such as the one `validateOptions` throws. */
  datatype Result<+R, +E> = Success(value: R) | Failure(error: E)
}
