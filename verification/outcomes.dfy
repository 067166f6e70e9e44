/**
 * Failure-carrying values shared by every module: the exceptions the
 * application raises, a Result type for operations that may raise one, and
 * a Step type pairing the state an operation leaves behind with its result.
 */
module Outcomes {

  /** The exceptions raised by the modelled code, one constructor per class. */
  datatype Error =
    | InvalidArgument(msg: string)   // \InvalidArgumentException
    | NotFound(msg: string)          // Repository\NotFoundException
    | ModelNotFound(msg: string)     // Model\NotFoundException
    | BadMethodCall(msg: string)     // \BadMethodCallException
    | AlreadyExists(msg: string)     // Model\AlreadyExistsException
    | UnknownProtocol(msg: string)   // \RuntimeException raised by the factory
    | MalformedRow(msg: string)      // a CSV row the decoder cannot turn into a task
    | DriverError(msg: string)       // \PDOException raised by the database driver

  datatype Option<+T> = None | Some(value: T)

  datatype Result<+T> = Ok(value: T) | Err(error: Error) {
    predicate IsFailure() { Err? }

    function PropagateFailure<U>(): Result<U>
      requires Err?
    {
      Err(error)
    }

    function Extract(): T
      requires Ok?
    {
      value
    }
  }

  /** The state an operation leaves behind together with what it returned or raised. */
  datatype Step<+S, +T> = Step(state: S, result: Result<T>)
}
