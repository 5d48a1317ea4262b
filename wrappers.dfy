/** The optional value used for the open ends of an integer range. */
module Wrappers {

  datatype Option<+T> = None | Some(value: T)
}
