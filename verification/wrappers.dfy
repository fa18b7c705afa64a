/** The optional value used both for a student's per-term slot and for
    results that may be absent. */
module Wrappers {

  datatype Option<+T> = None | Some(value: T)

}
