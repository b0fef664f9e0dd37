/** Optional values: `None` stands for the C null pointer and for "not found". */
module Wrappers {
  datatype Option<+T> = None | Some(value: T)
}
