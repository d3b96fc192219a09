/** Result shapes shared by the models. */
module Wrappers {

  datatype Option<+T> = None | Some(value: T)

  /** What a call leaves its caller with: a returned value or a raised exception. */
  datatype Outcome<+T, +E> = Returned(value: T) | Raised(error: E)
}
