/** The optional value used for partial conversions and for the fatal outcome of a call. */
module Wrappers {

  datatype Option<+T> = None | Some(value: T)
}
