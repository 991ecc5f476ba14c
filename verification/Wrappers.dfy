// Values that may be absent, and operations that may fail.
module Wrappers {
  datatype Option<+T> = None | Some(value: T)

  // A Go panic at registration is a failed result; the message is not modelled.
  datatype Result<+T> = Ok(value: T) | Panic
}
