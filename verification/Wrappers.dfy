/** Failure-compatible results and the stable error codes shared by every component. */
module Wrappers {

  datatype Option<+T> = None | Some(value: T)

  datatype ErrorCode =
    | RequiredCapabilityMissing
    | InvalidStateTransition
    | ProtocolViolation
    | Closed
    | Internal
    | Truncated
    | InvalidRange
    | InvalidAlignment
    | InvalidMagic
    | LayoutVersionMismatch
    | StaleGeneration
    | UnknownRequiredFlag
    | MessageTooLarge
    | Backpressured
    | InvalidCursor
    | AuthenticationFailed
    | ReplayDetected
    | CleanupFailed
    | PreparationFailed

  datatype Result<+T> = Ok(value: T) | Err(error: ErrorCode) {
    predicate IsFailure() {
      Err?
    }

    function PropagateFailure<U>(): Result<U>
      requires Err?
    {
      Err(error)
    }

    function Extract(): T
      requires Ok?
    {
      value
    }
  }
}
