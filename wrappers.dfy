/** Optional values, used for the "null" results of the games' engines. */
module Wrappers {

  datatype Option<+T> = None | Some(value: T)
}
