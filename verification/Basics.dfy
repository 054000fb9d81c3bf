/** Types that every part of the model uses. */
module Basics {
  newtype byte = x: int | 0 <= x < 256

  datatype Option<T> = None | Some(value: T)
}
