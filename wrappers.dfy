/**
  The optional value used wherever the C code returns a pointer that may be
  NULL for "nothing here" (a lookup miss, a rejected query, an unreadable file).
 */
module Wrappers {

  datatype Option<+T> = None | Some(value: T)

}
