/** The optional value used for results that can fail without further detail. */
module Wrappers {
  datatype Option<+T> = None | Some(value: T)
}
