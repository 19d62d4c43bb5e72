/** Optional values, standing in for the `T | null` state slots of the components. */
module Wrappers {

  datatype Option<+T> = None | Some(value: T)
}
