/** The Option type used for partial results throughout the model. */
module Wrappers {
  datatype Option<+T> = None | Some(value: T)
}
