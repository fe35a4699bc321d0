/** Elementwise numpy helpers used by the fiber solver, over exact reals. */
module Numeric {

  /** numpy's three-valued `np.sign`: -1, 0 or 1. */
  function Sign(x: real): (s: int)
    ensures -1 <= s <= 1
    ensures (s < 0 <==> x < 0.0) && (s == 0 <==> x == 0.0) && (s > 0 <==> x > 0.0)
  {
    if x < 0.0 then -1 else if x == 0.0 then 0 else 1
  }

  /** `np.fabs`. */
  function Abs(x: real): (r: real)
    ensures r >= 0.0 && (r == x || r == -x)
  {
    if x < 0.0 then -x else x
  }

  /** Python's builtin `min` of two numbers: the first unless the second is smaller. */
  function Min(x: real, y: real): (r: real)
    ensures r <= x && r <= y && (r == x || r == y)
  {
    if y < x then y else x
  }
}
