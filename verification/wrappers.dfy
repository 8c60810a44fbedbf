/** Small failure-carrying wrapper shared by the other modules. */
module Wrappers {

  /** A value that may be absent: a missing JSON key, a cancelled dialog, a failed search. */
  datatype Option<+T> = None | Some(value: T)
}
