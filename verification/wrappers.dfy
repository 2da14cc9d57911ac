/** The optional value used for a table cell that may be missing (pandas NaN). */
module Wrappers {

  datatype Option<+T> = None | Some(value: T)
}
