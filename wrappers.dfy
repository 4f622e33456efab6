/** The optional value returned by lookups (`get`) and by each step of a traversal (`next`). */
module Wrappers {
  datatype Option<+T> = None | Some(value: T)
}
