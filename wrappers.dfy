/** The optional value that big.Int.ModInverse signals with a nil result. */
module Wrappers {

  datatype Option<+T> = None | Some(value: T)
}
