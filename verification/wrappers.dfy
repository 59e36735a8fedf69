/** The optional value used where the source has a value that may be absent
    (`undefined` node, a failed regular-expression match, no closest child). */
module Wrappers {
  datatype Option<+T> = None | Some(value: T)
}
