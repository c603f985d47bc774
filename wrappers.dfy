/** Optional values: a missing colour, a ray that hits nothing, a frame that could not be sent. */
module Wrappers {

  datatype Option<+T> = None | Some(value: T)
}
