/** Optional values. In this model `None` stands for a JavaScript value that
    is absent (`undefined`), and `Some(v)` for one that is present. */
module Wrappers {

  datatype Option<+T> = None | Some(value: T)
}
