/** Optional values and results with a message, used where the JavaScript
    source has `undefined`/`null` or a thrown `Error`. */
module Maybe {

  /** A value that may be missing (`undefined` or `null` in the source). */
  datatype Option<+T> = None | Some(value: T) {

    /** The value, or `default` when missing (the source's `x || default`
        for values whose only falsy form is "missing"). */
    function GetOr(default: T): T {
      match this
      case Some(v) => v
      case None => default
    }
  }

  /** The outcome of an `async` step: a value, or the message of the
      `Error` it throws. */
  datatype Result<+T> = Ok(value: T) | Err(message: string)
}
