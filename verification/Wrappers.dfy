/** A value or none; none also stands for null and, where a comment says so, for an exception. */
module Wrappers {

  datatype Option<+T> = None | Some(value: T)
}
