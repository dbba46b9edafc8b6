/** Optional values: the model's stand-in for PHP's `false`/`null` results. */
module Wrappers {

  datatype Option<+T> = None | Some(value: T)
}
