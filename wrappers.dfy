/** The optional value used wherever the source returns null or throws a
    caught exception on a recoverable path. */
module Wrappers {

  datatype Option<+T> = None | Some(value: T)
}
