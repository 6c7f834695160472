/** Failure-compatible wrapper types shared by every module of the model.
    `Option` stands for `std::optional`, `Result` for a value or the
    exception / failed assertion the source raises instead. */
module Wrappers {

  datatype Option<+T> = None | Some(value: T) {

    predicate IsFailure() {
      None?
    }

    function PropagateFailure<U>(): Option<U>
      requires None?
    {
      None
    }

    function Extract(): T
      requires Some?
    {
      value
    }

    /** `std::optional::value_or` */
    function GetOr(default: T): T {
      match this
      case Some(v) => v
      case None => default
    }
  }

  /** The errors the modelled code can raise. */
  datatype Error =
    | InvalidArgument(msg: string)   // std::invalid_argument
    | BadOptionalAccess              // std::optional::value() on an empty optional
    | IndexError                     // Python IndexError / std::out_of_range
    | KeyError                       // Python KeyError
    | AssertionFailed                // a failed `assert`

  datatype Result<+R> = Success(value: R) | Failure(error: Error) {

    predicate IsFailure() {
      Failure?
    }

    function PropagateFailure<U>(): Result<U>
      requires Failure?
    {
      Failure(error)
    }

    function Extract(): R
      requires Success?
    {
      value
    }
  }
}
