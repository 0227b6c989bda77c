/** Failure-carrying wrappers shared by every module of the model. */
module Results {

  /** A value that may be absent: JavaScript's `undefined`/`null` become `None`. */
  datatype Option<+T> = None | Some(value: T) {
    /** The `??` operator: the value when present, otherwise `default`. */
    function OrElse(default: T): T {
      match this
      case Some(v) => v
      case None => default
    }
  }

  /** The outcome of an operation that can throw. */
  datatype Result<+T, +E> = Ok(value: T) | Err(error: E)
}
