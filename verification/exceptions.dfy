/** The exceptions the core raises, as values. */
module Exceptions {

  /** One constructor per exception class the core throws or lets escape:
      the two of model/Exceptions.kt, the JVM runtime exceptions the code
      relies on, and the gateway's configuration and server exceptions. */
  datatype Error =
    | IncompleteBuffer                  // IncompleteBufferException
    | InvalidData(message: string)      // InvalidDataException
    | IndexOutOfBounds                  // a list index or slice outside the list
    | IllegalArgument(message: string)  // IllegalArgumentException
    | NumberFormat(text: string)        // String.toInt() on text that is no Int
    | ConnectionClosed                  // ConnectionClosedException
    | QueueClosed                       // RuntimeException("The packet queue is closed.")
    | Unrecoverable(message: string)    // UnrecoverableServerException
    | TransitionTimeout                 // withTimeout(SERVER_TRANSITION_TIMEOUT) expiring
    | Misconfiguration(message: string) // MisconfigurationException
    | DriverExhausted                   // the driver oracle has no further answer

  datatype Result<+T> = Ok(value: T) | Err(error: Error) {
    predicate IsFailure() { Err? }
    function PropagateFailure<U>(): Result<U>
      requires Err?
    {
      Err(error)
    }
    function Extract(): T
      requires Ok?
    {
      value
    }
  }

  /** The result of an operation that returns nothing (Kotlin `Unit`). */
  datatype Outcome = Pass | Fail(error: Error)

  datatype Option<+T> = None | Some(value: T)
}
