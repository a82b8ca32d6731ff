/** Failure-carrying return types: the model's stand-in for Python's
    `ValueError`, which the form code raises and catches. */
module Results {

  /** An optional value; `None` is a rejected parse. */
  datatype Option<+T> = None | Some(value: T)

  /** Either a value or the reason it could not be produced. */
  datatype Result<+R, +E> = Success(value: R) | Failure(error: E)
}
