/** Optional values and results with an error, shared by the whole model.
    `None` stands for a JavaScript `undefined` or `null`; `Err` for a thrown
    exception. */
module Wrappers {

  datatype Option<T> = None | Some(value: T) {
    /** `value ?? default` */
    function GetOr(default: T): T {
      match this
      case Some(v) => v
      case None => default
    }
  }

  datatype Result<T, E> = Ok(value: T) | Err(error: E)
}
