/** The optional value used for lookups and pattern matches that can fail. */
module Wrappers {

  datatype Option<+T> = None | Some(value: T)
}
