module Wrappers {

  /** A value that may be absent: a D-Bus reply that may be invalid, a file
      that may fail to open. */
  datatype Option<+T> = None | Some(value: T)
}
