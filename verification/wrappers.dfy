/** Optional values: the model of a C# nullable reference (`T?`). */
module Wrappers {

  datatype Option<+T> = None | Some(value: T)
}
