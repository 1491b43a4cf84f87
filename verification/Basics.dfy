/** What several of the models share. */
module Basics {

  datatype Option<+T> = None | Some(value: T)

  /** The value a 32-bit unsigned variable holds after being assigned `x`. */
  function U32(x: int): (r: nat)
    ensures r < 0x1_0000_0000
    ensures 0 <= x < 0x1_0000_0000 ==> r == x
  {
    x % 0x1_0000_0000
  }
}
