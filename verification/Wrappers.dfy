/** Failure-compatible wrappers shared by every module of the model.
    `Option` stands for a Java reference that may be `null`; `Result` stands for
    a Java call that either returns a value or throws one of the exceptions in
    `Exception`. */
module Wrappers {

  datatype Option<+T> = None | Some(value: T) {
    function GetOr(default: T): T {
      match this
      case Some(v) => v
      case None => default
    }
  }

  /** The Java exceptions the modelled code throws (or hands to a logger). */
  datatype Exception =
    | IllegalArgument
    | IndexOutOfBounds
    | NegativeArraySize
    | NoSuchElement
    | UnsupportedOperation
    | NullPointer
    | NumberFormat
    | ClassCast

  datatype Result<+R> = Ok(value: R) | Err(error: Exception) {
    predicate IsFailure() {
      Err?
    }

    function PropagateFailure<U>(): Result<U>
      requires Err?
    {
      Err(error)
    }

    function Extract(): R
      requires Ok?
    {
      value
    }
  }
}
