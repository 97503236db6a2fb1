/** The optional value used for request fields and for lookups that may find
    nothing (JavaScript's `undefined` / `null`). */
module Wrappers {

  datatype Option<+T> = None | Some(value: T)
}
