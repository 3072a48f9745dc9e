/** Failure-carrying values shared by every module: a missing reference
    (Java's null), a successful result, or one of the exceptions the domain
    classes throw. */
module Outcomes {

  datatype Option<+T> = None | Some(value: T) {
    function GetOr(default: T): T {
      match this
      case Some(v) => v
      case None => default
    }
  }

  /** The exceptions of the domain layer. Conflict carries the id of the
      requesting task and the ids of the tasks that block it, as
      ConflictException does. */
  datatype Error =
    | IllegalArgument
    | IllegalState
    | DateTimeOutOfRange
    | Conflict(requester: int, conflicting: set<int>)
    | ObjectNotFound(id: int)

  datatype Result<+T> = Ok(value: T) | Err(error: Error) {
    predicate IsFailure() { Err? }
    function PropagateFailure<U>(): Result<U>
      requires Err?
    {
      Err(error)
    }
    function Extract(): T
      requires Ok?
    {
      value
    }
  }

  /** The outcome of an operation that returns nothing (a Java void method). */
  datatype Outcome = Pass | Fail(error: Error)
}
