/** The optional value used for a level file that may be missing and for
    the stream extraction that may fail. */
module Wrappers {

  datatype Option<+T> = None | Some(value: T)
}
