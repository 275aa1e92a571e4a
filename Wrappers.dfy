/** Small wrapper datatypes shared by the whole model. */
module Wrappers {

  /** A value that may be absent; `None` stands for a .NET `null` or `default`. */
  datatype Option<+T> = None | Some(value: T) {
    function GetOr(default: T): T {
      match this
      case Some(v) => v
      case None => default
    }
  }

  /** The .NET exceptions the modelled code can raise. */
  datatype Exception = NullReference | ArgumentOutOfRange | InvalidOperation

  /** The outcome of a call that either returns a value or throws. */
  datatype Outcome<+T> = Returns(value: T) | Throws(error: Exception)
}
