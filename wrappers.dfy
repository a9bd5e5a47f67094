/** The optional value used where the Java code returns null or a read can fail. */
module Wrappers {
  datatype Option<+T> = None | Some(value: T)
}
