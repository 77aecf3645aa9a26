/** Option and Result, used for the source's `None`/`inf` defaults and for its exceptions. */
module Wrappers {

  datatype Option<+T> = None | Some(value: T)

  /** The exceptions the modelled Python code can raise. */
  datatype Error =
    | ValueError(msg: string)
    | IndexError(msg: string)
    | KeyError(msg: string)
    | TypeError(msg: string)

  datatype Result<+R> = Ok(value: R) | Err(error: Error)
}
