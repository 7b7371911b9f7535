/** Small shared vocabulary: the optional value used for JavaScript's `undefined`
    and the integer helpers the components use (`Math.min`, `Math.max`, `Math.abs`). */
module Common {

  /** A value that may be absent, the model of a property or variable left `undefined`. */
  datatype Option<+T> = None | Some(value: T)

  function Min(a: int, b: int): (m: int)
    ensures m <= a && m <= b
    ensures m == a || m == b
  {
    if a <= b then a else b
  }

  function Max(a: int, b: int): (m: int)
    ensures a <= m && b <= m
    ensures m == a || m == b
  {
    if a >= b then a else b
  }

  function Abs(x: int): (r: nat)
    ensures r == x || r == -x
  {
    if x < 0 then -x else x
  }
}
