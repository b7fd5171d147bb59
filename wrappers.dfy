/** The nullable reference of the source (a GridElement that may be null). */
module Wrappers {
  datatype Option<+T> = None | Some(value: T)
}
