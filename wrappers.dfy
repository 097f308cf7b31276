/** The optional value used by the decimal reader and the terminator search. */
module Wrappers {

  datatype Option<+T> = None | Some(value: T)
}
