/** The optional value used for "no match" and "no instance variables". */
module Wrappers {
  datatype Option<+T> = None | Some(value: T)
}
