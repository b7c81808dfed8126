/** Optional values: `None` stands for JavaScript's `null` or for a value that is not there. */
module Wrappers {

  datatype Option<+T> = None | Some(value: T)
}
