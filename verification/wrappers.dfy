/** A value that a Ruby hash may hold or leave nil. */
module Wrappers {

  datatype Option<+T> = None | Some(value: T)
}
