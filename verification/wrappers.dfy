/** The optional value used for empty cells (JavaScript `null`) and for "no key latched". */
module Wrappers {
  datatype Option<+T> = None | Some(value: T)
}
