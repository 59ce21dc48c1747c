/** The optional value used for the program's `None`-able fields and for failed lookups. */
module Wrappers {
  datatype Option<+T> = None | Some(value: T)
}
