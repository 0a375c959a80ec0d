/** Optional values: the model's stand-in for a nullable `void*` result. */
module Wrappers {

  /** `None` plays the role of the NULL pointer a container returns when it has nothing to give. */
  datatype Option<+T> = None | Some(value: T)
}
