/** The optional value used for "no entry matched" and for a rejected snapshot. */
module Wrappers {

  datatype Option<+T> = None | Some(value: T)
}
