/** Optional values: the model's reading of a nullable column or of JavaScript's
    `null`, `undefined` and `NaN` where the source produces them. */
module Wrappers {

  datatype Option<+T> = None | Some(value: T)
}
