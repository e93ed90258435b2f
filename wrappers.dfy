/** Optional values: a prop the caller may leave out. */
module Wrappers {

  datatype Option<+T> = None | Some(value: T)
}
