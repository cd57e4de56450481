/** Failure-carrying wrappers used across the model: a value that may be
    absent (a .NET null reference or a failed parse) and the outcome of an
    operation that can be rejected with an ArgumentException. */
module Results {

  datatype Option<+T> = None | Some(value: T) {

    /** The value, or `default` when there is none. */
    function GetOr(default: T): (r: T)
      ensures Some? ==> r == value
      ensures None? ==> r == default
    {
      match this
      case Some(v) => v
      case None => default
    }
  }

  datatype Result<+T, +E> = Success(value: T) | Failure(error: E)
}
