/** Optional values: a JavaScript `null`, an empty form field or a `NaN`
    from `parseInt` is `None`. */
module Wrappers {

  datatype Option<+T> = None | Some(value: T)
}
