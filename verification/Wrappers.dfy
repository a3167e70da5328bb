/** Small notions shared by several modules. */
module Wrappers {
  datatype Option<+T> = None | Some(value: T)

  /** Subtraction of machine-sized naturals that stops at zero. */
  function SaturatingSub(a: nat, b: nat): nat { if a >= b then a - b else 0 }
}
