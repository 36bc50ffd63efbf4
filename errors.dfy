/*
 * Error taxonomy of lbuild and the Option/Result wrappers used to model
 * Python exceptions as values.
 */
module Errors {

  datatype Option<T> = None | Some(value: T)
  {
    predicate IsFailure() { None? }

    function PropagateFailure<U>(): Option<U>
      requires None?
    {
      None
    }

    function Extract(): T
      requires Some?
    {
      value
    }
  }

  /** The kind of a raised exception: lbuild's own classes, then Python built-ins. */
  datatype ErrorKind =
    | LbuildError        // LbuildException
    | ValidateError      // LbuildValidateException
    | BuildError         // LbuildBuildException
    | KeyError           // Python KeyError
    | TypeError          // Python TypeError
    | ValueError         // Python ValueError
    | BlobError          // blob's BlobException
    | OtherError         // any other Python exception raised by user code

  datatype Error =
    | Raised(kind: ErrorKind, msg: string)
    | Aggregate(errors: seq<Error>)            // LbuildAggregateException
    | Forward(owner: string, cause: Error)    // LbuildForwardException

  /** True for the exceptions that derive from LbuildException. */
  predicate IsLbuild(e: Error)
  {
    match e
    case Raised(k, _) => k == LbuildError || k == ValidateError || k == BuildError
    case Aggregate(_) => true
    case Forward(_, _) => true
  }

  function Fail(msg: string): Error
  {
    Raised(LbuildError, msg)
  }

  datatype Result<T> = Success(value: T) | Failure(error: Error)
  {
    predicate IsFailure() { Failure? }

    function PropagateFailure<U>(): Result<U>
      requires Failure?
    {
      Failure(error)
    }

    function Extract(): T
      requires Success?
    {
      value
    }
  }
}
