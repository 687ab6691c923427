/**
 * Optional values, and the exceptions the date code throws, as values.
 */
module Errors {

  datatype Option<+T> = None | Some(value: T) {
    function GetOr(default: T): T
    {
      match this
      case Some(v) => v
      case None => default
    }
  }

  /** What the source throws (its Error messages, or the host's TypeErrors). */
  datatype Error =
    | UnsupportedInterval(interval: string)  // increment with an unknown unit
    | UnsupportedFormat                      // the %W format token
    | InvalidName(kind: string)              // no day/month name has the given prefix
    | AmbiguousName(kind: string)            // several day/month names have it
    | TypeError(what: string)                // a missing method, or a property read of null
    | ReferenceError(name: string)           // a read of a variable that is not defined
    | NotANumber(text: string)               // a text that would make the instant NaN
    | Cyclic                                 // %x/%X expansions that recurse without end

  /** The message text of the errors the source raises with `new Error(...)`. */
  function Message(e: Error): string
  {
    match e
    case UnsupportedInterval(i) => i + " is not a supported interval"
    case UnsupportedFormat => "%W is not supported yet"
    case InvalidName(k) => "Invalid " + k + " string"
    case AmbiguousName(k) => "Ambiguous " + k
    case TypeError(w) => w
    case ReferenceError(n) => n + " is not defined"
    case NotANumber(t) => t + " is not a number"
    case Cyclic => "too much recursion"
  }

  datatype Result<+T> = Ok(value: T) | Err(error: Error) {
    predicate IsFailure()
    {
      Err?
    }

    function PropagateFailure<U>(): Result<U>
      requires Err?
    {
      Err(error)
    }

    function Extract(): T
      requires Ok?
    {
      value
    }
  }
}
