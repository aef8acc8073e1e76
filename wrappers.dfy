/** The optional value returned by the store's single-document lookups. */
module Wrappers {
  datatype Option<+T> = None | Some(value: T)
}
