/** Failure-carrying result types shared by every model in this project.
    A Python exception raised by the modelled code becomes an `Err`/`None`
    instead of a precondition. */
module Wrappers {

  datatype Option<+T> = None | Some(value: T)

  /** The errors the modelled Python code can raise, by exception class. */
  datatype PyError =
    | ZeroDivision          // ZeroDivisionError
    | EmptySequence         // ValueError from min()/max() of an empty sequence
    | BadValue(msg: string) // any other ValueError, with its message
    | IndexOutOfRange       // IndexError
    | KeyMissing            // KeyError
    | TypeMismatch          // TypeError
    | UnboundName           // UnboundLocalError
    | Raised(msg: string)   // an explicit `raise Exception(msg)`

  datatype Result<+T> = Ok(value: T) | Err(error: PyError)
}
