/** Failure-carrying datatypes shared by every module of the model.
    Python exceptions become `Err` values tagged with the exception class
    the source raises, so that error paths can be stated in contracts. */
module Wrappers {

  datatype Option<+T> = None | Some(value: T)

  /** The exception classes the modelled code raises. */
  datatype Error =
    | ValueError
    | TypeError
    | IndexError
    | KeyError
    | AttributeError
    | AssertionError
    | NotImplementedError
    | RuntimeError
    | ItemNotFound
    | FileNotFound
    | ZeroDivisionError

  datatype Result<+T> = Ok(value: T) | Err(error: Error) {
    predicate IsFailure() { Err? }

    function PropagateFailure<U>(): Result<U>
      requires Err?
    {
      Err(error)
    }

    function Extract(): T
      requires Ok?
    {
      value
    }
  }
}
