/** The optional value returned by the partial inverses of this model. */
module Wrappers {
  datatype Option<+T> = None | Some(value: T)
}
