/** Optional values: the model's stand-in for JavaScript's `null`/`undefined`
    and for environment probes that may be unavailable. */
module Wrappers {

  datatype Option<+T> = None | Some(value: T)
}
