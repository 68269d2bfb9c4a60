/** PHP's nullable values (`?int`, `?string`, a `findOneBy` that may return null). */
module Wrappers {

  datatype Option<+T> = None | Some(value: T)
}
