/** The optional value the grid returns where the source returns a possibly null reference. */
module Wrappers {
  datatype Option<+T> = None | Some(value: T)
}
