/** A value that may be absent: a missing form field, a date past the last representable one. */
module Wrappers {

  datatype Option<+T> = None | Some(value: T)
}
