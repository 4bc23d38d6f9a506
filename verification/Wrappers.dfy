/** Results that may be missing, and calls that may throw. */
module Wrappers {

  datatype Option<+T> = None | Some(value: T)

  /** `Thrown` stands for the exception of a failed CHECK. */
  datatype Outcome<+T> = Done(value: T) | Thrown
}
