/** Option and Result, used wherever the Python code returns None or raises. */
module Wrappers {

  datatype Option<+T> = None | Some(value: T)

  /** The exceptions the modelled Python code can raise, by their Python names. */
  datatype PyError =
    | IndexError
    | KeyError
    | TypeError
    | ValueError
    | AttributeError
    | UnboundLocalError

  datatype Result<+R> = Success(value: R) | Failure(error: PyError) {
    predicate IsFailure() { Failure? }
    function PropagateFailure<U>(): Result<U>
      requires Failure?
    {
      Failure(error)
    }
    function Extract(): R
      requires Success?
    {
      value
    }
  }
}
