/** Optional values, used wherever the editor answers "no such object". */
module Wrappers {
  datatype Option<T> = None | Some(value: T)
}
