/** Optional values: PHP's "string or false" returns and absent array keys. */
module Wrappers {

  datatype Option<+T> = None | Some(value: T)
}
