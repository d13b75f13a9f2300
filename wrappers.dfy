/** The Option datatype used for lookups and for operations that may raise. */
module Wrappers {

  datatype Option<+T> = None | Some(value: T)
}
