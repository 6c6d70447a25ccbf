/** Missing values and error results.

    pandas marks an absent or unparseable cell as NaN/NaT; here an absent cell
    is `None`. Operations that can fail in the dashboard return a `Result`. */
module Optional {

  /** A value that may be missing (a NaN or NaT cell). */
  datatype Option<+T> = None | Some(value: T) {

    /** The value, or `default` when it is missing. */
    function GetOr(default: T): (r: T)
      ensures Some? ==> r == value
      ensures None? ==> r == default
    {
      match this
      case Some(v) => v
      case None => default
    }
  }

  /** The outcome of an operation that can fail with an error of type `E`. */
  datatype Result<+T, +E> = Ok(value: T) | Err(error: E)
}
