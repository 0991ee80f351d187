/** Option, used for the source's nullable references and for lookups that can miss. */
module Wrappers {
  datatype Option<+T> = None | Some(value: T)
}
