/** Python's `Optional[T]`: `None` stands for Python's `None` value. */
module Wrappers {
  datatype Option<+T> = None | Some(value: T)
}
