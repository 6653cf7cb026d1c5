/** Optional values: JavaScript's `null`/`undefined`/`NaN` outcomes as `None`. */
module Base {

  datatype Option<+T> = None | Some(value: T)
}
