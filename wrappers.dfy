/** Optional values: a JavaScript `undefined` (a missing array element, a field that was never
    assigned) is `None`. */
module Wrappers {

  datatype Option<+T> = None | Some(value: T)
}
