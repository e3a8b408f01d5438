/** Values shared by every component: failure-carrying results and the
    .NET exceptions that the modelled code throws. */
module Common {

  /** The exception a failing .NET call throws, by its type name. */
  datatype ErrorKind =
    | Argument
    | ArgumentOutOfRange
    | InvalidOperation
    | ArgumentNull
    | NotImplemented
    | KeyNotFound
    | IndexOutOfRange
    | Application
    | Format
    | Overflow
    | Cluster

  datatype Option<+T> = None | Some(value: T)

  datatype Result<+T> = Ok(value: T) | Err(error: ErrorKind) {
    predicate IsFailure() { Err? }
    function PropagateFailure<U>(): Result<U>
      requires Err?
    {
      Err(error)
    }
    function Extract(): T
      requires Ok?
    {
      value
    }
  }

  /** Outcome of a statement that returns nothing but may throw. */
  datatype Outcome = Done | Failed(error: ErrorKind) {
    predicate IsFailure() { Failed? }
    function PropagateFailure(): Outcome
      requires Failed?
    {
      this
    }
  }

  /** A command carried by a log entry.  The log stores opaque objects; the
      sample counter service sends these three, anything else is `Other`. */
  datatype Command = IncrementCounter | DecrementCounter | ResetCounter | OtherCommand(typeName: string)

  /** A node identifier (a string in the source). */
  type NodeId = string

  function Max(a: int, b: int): int { if a < b then b else a }
  function Min(a: int, b: int): int { if a < b then a else b }
}
