/** Optional values, used for the outcomes that the source signals by throwing
    (a record that does not decode, a scorer that fails) or by `undefined`. */
module Wrappers {

  datatype Option<+T> = None | Some(value: T)

}
