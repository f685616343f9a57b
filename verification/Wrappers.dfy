/** Types that several components share. */
module Wrappers {

  datatype Option<+T> = None | Some(value: T)

  type byte = b: int | 0 <= b < 256
}
