/** The optional value used where the Java code returns `null` for "absent". */
module Wrappers {

  datatype Option<+T> = None | Some(value: T)
}
