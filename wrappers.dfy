/** Optional values, used wherever the source reports failure through a `bool *pb`. */
module Wrappers {

  datatype Option<T> = None | Some(value: T)
}
