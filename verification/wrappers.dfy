/** A value that may be absent: what the sources write as `undefined`, `null` or `None`. */
module Wrappers {
  datatype Option<+T> = None | Some(value: T)
}
