/** An optional value: JavaScript's `undefined` result, or a parameter the caller may leave out. */
module Wrappers {
  datatype Option<+T> = None | Some(value: T)
}
