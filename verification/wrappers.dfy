/** Optional values: `None` stands for a `null` the component itself stores. */
module Wrappers {

  datatype Option<+T> = None | Some(value: T)
}
