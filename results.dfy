/** Optional values, the error kinds the services raise, and results that carry either. */
module Results {

  /** A nullable column or an absent payload field. */
  datatype Option<T> = None | Some(value: T) {

    /** The value if there is one, `default` otherwise (`x if x is not None else default`). */
    function GetOr(default: T): T {
      if Some? then value else default
    }
  }

  /** The exceptions the source raises, grouped by cause. */
  datatype Error =
    | NotFound      // a lookup, update or delete matched no row
    | NameTooShort  // an author name of fewer than three characters
    | MissingField  // a payload field that the operation reads is absent
    | DuplicateKey  // an insert whose primary key is already taken

  /** The outcome of an operation that may raise. */
  datatype Result<T> = Ok(value: T) | Err(error: Error)
}
