/** Optional values and results for the places where the JavaScript code
    returns `undefined`/`null` or throws. */
module Wrappers {

  datatype Option<+T> = None | Some(value: T)

  /** `Err` carries the message of the error the source throws. */
  datatype Result<+T> = Ok(value: T) | Err(message: string)
}
