/** Failure-carrying return values: the Python code signals a missing value with
    None and a failure with an exception; the model returns these instead. */
module Results {

  datatype Option<+T> = None | Some(value: T)

  datatype Result<+T, +E> = Success(value: T) | Failure(error: E)
}
