/** Optional values, and the outcome of a call that either returns or raises. */
module Outcomes {

  datatype Option<+T> = None | Some(value: T)

  /** The Python exceptions the modelled routines can raise. */
  datatype Error =
    | KeyError(key: string)      // a missing column or dictionary key
    | IndexError                 // a positional row index past the end
    | TypeError(reason: string)  // an argument of the wrong kind
    | ValueError(reason: string) // an explicit `raise ValueError(...)`

  /** A Python call that either returns a value or raises an exception. */
  datatype Outcome<+T> = Ok(value: T) | Raised(error: Error)
}
