/** The optional value the rest of the project shares: the source's "value or None". */
module Wrappers {
  datatype Option<+T> = None | Some(value: T)
}
