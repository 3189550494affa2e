/** A value that may be absent: an unset environment variable, a missing JSON field, no match. */
module Wrappers {

  datatype Option<+T> = None | Some(value: T)
}
