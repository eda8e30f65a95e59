/** Optional values: a session-state entry that may hold `None`. */
module Wrappers {
  datatype Option<+T> = None | Some(value: T)
}
