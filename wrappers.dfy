/** The Option type used for lookups that may fail and for patterns that may not match. */
module Wrappers {
  datatype Option<+T> = None | Some(value: T)
}
