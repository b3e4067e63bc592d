/** Optional values, used for lookups that can miss and decoders that can
    reject their input. */
module Wrappers {

  datatype Option<+T> = None | Some(value: T)
}
