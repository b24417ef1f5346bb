/** A value that may be absent: a request-body field that was not sent. */
module Wrappers {
  datatype Option<+T> = None | Some(value: T)
}
