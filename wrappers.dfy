/** Optional values: a file or device that may be missing, an ioctl that may fail. */
module Wrappers {
  datatype Option<+T> = None | Some(value: T)
}
