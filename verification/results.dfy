/** Failure-carrying values shared by the model's modules. */
module Results {

  /** A value that may be absent; pandas' NaN in a numeric column is `None`. */
  datatype Option<+T> = None | Some(value: T) {

    /** The present value, or `default` when absent (pandas `fillna`). */
    function GetOr(default: T): T {
      if Some? then value else default
    }
  }

  /** The outcome of an operation that can fail with an error of type `E`. */
  datatype Result<+T, +E> = Ok(value: T) | Err(error: E)
}
