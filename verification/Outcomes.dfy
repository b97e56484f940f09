/** The result of an operation that the library refuses by throwing, and a value that may be absent. */
module Outcomes {
  datatype Outcome<+T> = Accepted(value: T) | Refused

  datatype Option<+T> = None | Some(value: T)
}
