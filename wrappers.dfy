/** The two failure-carrying shapes the model uses: a value that may be absent
    (Python's None) and a computation that may raise (the key of the failure
    says what was raised). */
module Wrappers {

  datatype Option<T> = None | Some(value: T) {
    /** The value, or `default` when absent (Python's `dict.get(k, default)`). */
    function GetOr(default: T): T {
      match this
      case Some(v) => v
      case None => default
    }
  }

  datatype Result<T, E> = Success(value: T) | Failure(error: E)
}
