/** The nullable values of the source (`T?`, `Nullable<T>`). */
module Wrappers {
  datatype Option<+T> = None | Some(value: T)
}
