/** The optional value used for grid cells and for the possibly-absent pieces. */
module Wrappers {
  datatype Option<T> = None | Some(value: T)
}
