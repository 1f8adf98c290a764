/** A value that may be absent: a lookup that reports "not found" rather than
    inventing a record. */
module Wrappers {

  datatype Option<+T> = None | Some(value: T)
}
