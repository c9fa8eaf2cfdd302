/** The optional value used for fixes that may be withheld and settings that may be absent. */
module Wrappers {
  datatype Option<+T> = None | Some(value: T)
}
