/** Optional values, used for "no corrective action". */
module Wrappers {

  datatype Option<+T> = None | Some(value: T)
}
