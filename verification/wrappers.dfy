/** The optional value used for cursors and parse results. */
module Wrappers {

  datatype Option<+T> = None | Some(value: T)
}
