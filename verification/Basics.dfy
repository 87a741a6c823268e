/** Types that several modules share. */
module Basics {
  type Byte = x: int | 0 <= x < 256

  const U32: int := 0x1_0000_0000

  datatype Option<+T> = None | Some(value: T)
}
