/** The two outcome types shared by the model: an optional value, and a value or a thrown exception. */
module Wrappers {

  datatype Option<+T> = None | Some(value: T)

  /** The exception classes the source distinguishes when it catches. */
  datatype Fault = OutOfRange | InvalidObject | RuntimeError | LogicError

  datatype Result<+T> = Success(value: T) | Failure(fault: Fault)
}
