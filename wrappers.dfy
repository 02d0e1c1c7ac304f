/** The optional value the registry returns for a lookup that may miss. */
module Wrappers {
  datatype Option<+T> = None | Some(value: T)
}
