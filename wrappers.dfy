/** Option and Result values, used for Python's "may return None" and "may raise". */
module Wrappers {

  datatype Option<+T> = None | Some(value: T)

  /** Success carries the returned value; Failure carries str(e) of the exception raised. */
  datatype Result<+R> = Success(value: R) | Failure(error: string)
}
