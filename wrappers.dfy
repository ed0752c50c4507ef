/** The optional value used for spreadsheet and roster cells that may be missing. */
module Wrappers {

  datatype Option<+T> = None | Some(value: T)
}
