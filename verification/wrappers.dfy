/** Failure-compatible Option and Result types used by every module of the model. */
module Wrappers {

  datatype Option<+T> = None | Some(value: T) {
    predicate IsFailure() { None? }

    function PropagateFailure<U>(): Option<U>
      requires None?
    {
      None
    }

    function Extract(): T
      requires Some?
    {
      value
    }
  }

  datatype Result<+R, +E> = Success(value: R) | Failure(error: E) {
    predicate IsFailure() { Failure? }

    function PropagateFailure<U>(): Result<U, E>
      requires Failure?
    {
      Failure(error)
    }

    function Extract(): R
      requires Success?
    {
      value
    }
  }
}

/** The Python exceptions the modelled code raises, each with the message text it carries. */
module Errors {

  datatype Error =
    | ValueError(msg: string)
    | KeyError(key: string)
    | AttributeError(msg: string)
    | TypeError(msg: string)
    | IndexError(msg: string)
}
