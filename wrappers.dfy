/** Option and Result values standing for Python's `None` and for the
    exceptions the modelled code raises or swallows. */
module Wrappers {

  datatype Option<+T> = None | Some(value: T) {
    function GetOr(default: T): T {
      match this
      case Some(v) => v
      case None => default
    }
  }

  /** The Python exception classes that the modelled code can raise. */
  datatype Error =
    | ValueError   // int() of a string that is not a number
    | NameError    // reference to an undefined name
    | KeyError     // dict lookup of an absent key

  datatype Result<+T> = Success(value: T) | Failure(error: Error)

  function Min(a: int, b: int): int { if a <= b then a else b }

  function Max(a: int, b: int): int { if a >= b then a else b }
}
