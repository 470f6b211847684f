/** A value that may be absent: a storage key that was never written, a
    `null` returned by a host call. */
module Wrappers {
  datatype Option<+T> = None | Some(value: T)
}
