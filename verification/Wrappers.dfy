/** Values that may be absent: JavaScript's null and undefined, and parse failures. */
module Wrappers {
  datatype Option<+T> = None | Some(value: T)
}
