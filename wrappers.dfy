/** Optional values, used for the two mutually exclusive fields of a verdict
    and for the outcome of selecting the master-data columns. */
module Wrappers {

  datatype Option<+T> = None | Some(value: T)

}
