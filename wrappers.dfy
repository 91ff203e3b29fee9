/** Failure-carrying wrappers shared by every module of the model. */
module Wrappers {

  datatype Option<T> = None | Some(value: T)

  /** The Python exceptions that the modelled scripts let escape. */
  datatype Exception = ValueError | KeyError | OverflowError | AttributeError

  /** A value, or the exception raised while computing it. */
  datatype Result<T> = Ok(value: T) | Raised(error: Exception)
}
