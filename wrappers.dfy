/** The optional value used for Java's nullable results (a `String` that may be
    null, an exception that may or may not be thrown). */
module Wrappers {

  datatype Option<+T> = None | Some(value: T)
}
