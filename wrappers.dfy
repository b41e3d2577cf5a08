/** Optional values, standing for JavaScript's `null`/`undefined` and for a
    database lookup that finds no row. */
module Wrappers {

  datatype Option<+T> = None | Some(value: T)
}
