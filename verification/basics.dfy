/** Shared vocabulary of the model: optional values, points and colours,
    Python's float-to-int conversion, `random.uniform`, and the explicit
    stream of random draws that replaces Python's global `random` state. */
module Basics {

  datatype Option<+T> = None | Some(value: T)

  datatype Result<+T, +E> = Ok(value: T) | Err(error: E)

  /** A point in canvas coordinates; Python floats are modelled as reals. */
  datatype Point = Point(x: real, y: real)

  /** An RGB colour triple. */
  datatype Rgb = Rgb(r: int, g: int, b: int)

  /** The successive results of `random.random()`: `rs(i)` is the i-th draw.
      Every consumer takes a cursor into the stream and returns the next one. */
  type Stream = nat -> real

  /** `random.random()` always lies in [0, 1). */
  ghost predicate ValidDraws(rs: Stream) {
    forall i: nat :: 0.0 <= rs(i) < 1.0
  }

  function Abs(x: real): real {
    if x < 0.0 then -x else x
  }

  function Max(a: int, b: int): int {
    if a < b then b else a
  }

  function Min(a: int, b: int): int {
    if a < b then a else b
  }

  function MinR(a: real, b: real): real {
    if a < b then a else b
  }

  function MaxR(a: real, b: real): real {
    if a < b then b else a
  }

  /** Number of iterations of `range(n)`: none when `n` is zero or negative. */
  function RangeLen(n: int): nat {
    if n < 0 then 0 else n
  }

  /** Python's `int()` applied to a float: drops the fraction, rounding toward zero. */
  function Trunc(x: real): (r: int)
  {
    if x >= 0.0 then x.Floor else -((-x).Floor)
  }

  /** `int()` drops less than one unit and never changes the sign. */
  lemma TruncBounds(x: real)
    ensures Abs(Trunc(x) as real) <= Abs(x) < Abs(Trunc(x) as real) + 1.0
    ensures Trunc(x) > 0 ==> x > 0.0
    ensures Trunc(x) < 0 ==> x < 0.0
  {
  }

  /** On non-negative values truncation is the floor. */
  lemma TruncNonNegative(x: real)
    requires 0.0 <= x
    ensures Trunc(x) == x.Floor
  {
  }

  /** Truncation of a whole number gives that number back. */
  lemma TruncWhole(n: int)
    ensures Trunc(n as real) == n
  {
  }

  /** `int()` never reverses the order of two floats. */
  lemma TruncMonotone(x: real, y: real)
    requires x <= y
    ensures Trunc(x) <= Trunc(y)
  {
    if 0.0 <= x {
      assert x.Floor <= y.Floor;
    } else if y < 0.0 {
      assert (-y).Floor <= (-x).Floor;
    }
  }

  /** `max(lo, min(hi, v))`. */
  function Clamp(lo: int, hi: int, v: int): (r: int)
    requires lo <= hi
    ensures lo <= r <= hi
    ensures lo <= v <= hi ==> r == v
    ensures v < lo ==> r == lo
    ensures hi < v ==> r == hi
  {
    Max(lo, Min(hi, v))
  }

  /** `random.uniform(a, b)` computed from one draw `u`: `a + (b - a) * u`. */
  function UniformIn(a: real, b: real, u: real): (r: real)
    requires 0.0 <= u < 1.0
    ensures a <= b ==> a <= r <= b
    ensures a < b ==> r < b
    ensures b <= a ==> b <= r <= a
  {
    a + Scale(b - a, u)
  }

  /** `d * u` for a draw `u` in [0, 1): between 0 and `d`, strictly below a positive `d`. */
  function Scale(d: real, u: real): (s: real)
    requires 0.0 <= u < 1.0
    ensures s == d * u
    ensures 0.0 <= d ==> 0.0 <= s <= d
    ensures 0.0 < d ==> s < d
    ensures d <= 0.0 ==> d <= s <= 0.0
  {
    if 0.0 < d then
      assert d * u < d * 1.0;
      d * u
    else if d < 0.0 then
      assert d * 1.0 <= d * u;
      d * u
    else
      d * u
  }
}
