/** Optional values: PHP's `false`/`null` returns become `None`. */
module Wrappers {

  datatype Option<+T> = None | Some(value: T)
}
