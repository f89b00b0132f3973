/**
 * The number primitives of the JavaScript runtime that the time tracker leans on.
 */
module JsMath {

  /** `Math.abs` on integers. */
  function Abs(x: int): (a: nat)
    ensures a == x || a == -x
  {
    if x < 0 then -x else x
  }
}
