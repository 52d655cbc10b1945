/** Failure-carrying return types: the model's stand-ins for the exceptions the
    servo environment raises (`ModelError`, `ActionError`). */
module Results {

  /** A value that may be absent. */
  datatype Option<+T> = None | Some(value: T)

  /** Either a computed value or the error that stopped the computation. */
  datatype Result<+T, +E> = Ok(value: T) | Err(error: E)
}
