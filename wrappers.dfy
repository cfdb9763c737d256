/** Optional values, used for every operation of the agent that can fail. */
module Wrappers {
  datatype Option<+T> = None | Some(value: T)
}
