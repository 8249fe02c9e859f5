/** `Option` for an input line a prompt may reject, and `Result` for a
    validator that says why it rejected one. */
module Wrappers {

  /** A value that may be absent: a rejected input line, a failed parse. */
  datatype Option<+T> = None | Some(value: T)

  /** A success value or the reason for a failure. */
  datatype Result<+R, +E> = Success(value: R) | Failure(error: E)
  {
    /** Forgets the reason for a failure. */
    function ToOption(): (o: Option<R>)
      ensures o.Some? <==> Success?
      ensures o.Some? ==> o.value == value
    {
      match this
      case Success(v) => Some(v)
      case Failure(_) => None
    }
  }
}
