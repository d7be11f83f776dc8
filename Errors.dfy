/** Outcomes of the Duke command core: a value, a checked exception the
    program raises on purpose, or a runtime fault of the Java library. */
module Errors {

  datatype Option<+T> = None | Some(value: T)

  /** What a Duke operation can throw instead of returning. */
  datatype Error =
    | DateException(message: string)    // duke.exceptions.DateException
    | DukeException(message: string)    // duke.exceptions.DukeException
    | NumberFormatFault                 // Integer.parseInt rejected its argument
    | IndexOutOfBoundsFault             // an array index or substring range outside the value
  {
    /** Unchecked faults of the Java runtime, as opposed to Duke's own exceptions. */
    predicate IsRuntimeFault() {
      NumberFormatFault? || IndexOutOfBoundsFault?
    }
  }

  /** A value or the exception that ended the computation; usable with `:-`,
      which propagates an exception the way Java does. */
  datatype Result<+T> = Ok(value: T) | Err(error: Error) {

    predicate IsFailure() {
      Err?
    }

    function PropagateFailure<U>(): Result<U>
      requires Err?
    {
      Err(error)
    }

    function Extract(): T
      requires Ok?
    {
      value
    }
  }
}
