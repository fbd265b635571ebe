/**
 * Option, Result and the error kinds the access layer surfaces to its callers.
 */
module Wrappers {

  /** A value that may be absent; `None` stands for a .NET `null`. */
  datatype Option<+T> = None | Some(value: T) {
    function GetOr(default: T): T {
      match this
      case Some(v) => v
      case None => default
    }
  }

  /**
   * The kinds of failure the core raises. `InvalidArgument` is a violated
   * InternalContract requirement, `ValidationFailed` a record that fails its
   * own Validate, `ExecutionFailed` an error raised by the database itself,
   * `AssertionFailed` an AssertionFailedException, `InvalidOperation` an
   * InvalidOperationException (SingleOrDefault on several elements, `.Value`
   * of a null `int?`).
   */
  datatype Error =
    | InvalidArgument
    | ValidationFailed
    | NotFound
    | Conflict
    | ExecutionFailed
    | AssertionFailed
    | InvalidOperation

  datatype Result<+R> = Success(value: R) | Failure(error: Error)

  /** The outcome of an operation that returns nothing on success. */
  datatype Outcome = Done | Failed(error: Error)

  /** A .NET string interpolation renders `null` as the empty string. */
  function OrEmpty(s: Option<string>): string {
    s.GetOr("")
  }
}
