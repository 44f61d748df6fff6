/** Failure-carrying wrappers shared by every module of the model. */
module Common {

  /** A possibly missing value: `None` plays the part of a NaN / null cell. */
  datatype Option<T> = None | Some(value: T)

  /** The outcome of a step that may raise: `Err` carries which failure was raised. */
  datatype Result<T, E> = Ok(value: T) | Err(error: E)
}
