/** Python floats as the matcher and the event store use them: an exact real, or NaN.

    A comparison with NaN is false, arithmetic with NaN is NaN, and `min`/`max`
    keep their first argument unless the second one compares strictly better, so
    both depend on the order of their arguments as soon as a NaN is involved.
    Rounding error and infinities are not modelled. */
module Floats {

  datatype Float = NaN | Num(r: real)

  predicate Lt(x: Float, y: Float) {
    x.Num? && y.Num? && x.r < y.r
  }

  predicate Le(x: Float, y: Float) {
    x.Num? && y.Num? && x.r <= y.r
  }

  function Min(x: Float, y: Float): Float {
    if Lt(y, x) then y else x
  }

  function Max(x: Float, y: Float): Float {
    if Lt(x, y) then y else x
  }

  function Add(x: Float, y: Float): Float {
    if x.Num? && y.Num? then Num(x.r + y.r) else NaN
  }

  function Sub(x: Float, y: Float): Float {
    if x.Num? && y.Num? then Num(x.r - y.r) else NaN
  }

  function Abs(x: Float): Float {
    if x.Num? then Num(AbsReal(x.r)) else NaN
  }

  function Div(x: Float, y: Float): Float
    requires y != Num(0.0)
  {
    if x.Num? && y.Num? then Num(x.r / y.r) else NaN
  }

  function AbsReal(x: real): real {
    if x < 0.0 then -x else x
  }

  function MinReal(x: real, y: real): real {
    if y < x then y else x
  }

  function MaxReal(x: real, y: real): real {
    if x < y then y else x
  }

  /** The nearest integer, ties to even: Python's `round`. */
  function RoundHalfEven(x: real): (n: int)
    ensures n as real - 0.5 <= x <= n as real + 0.5
  {
    var f := x.Floor;
    var d := x - f as real;
    if d < 0.5 then f
    else if d > 0.5 then f + 1
    else if f % 2 == 0 then f else f + 1
  }

  lemma {:induction false} RoundMonotone(x: real, y: real)
    requires x <= y
    ensures RoundHalfEven(x) <= RoundHalfEven(y)
  {
    assert x.Floor <= y.Floor;
  }

  lemma {:induction false} RoundFixes(n: int)
    ensures RoundHalfEven(n as real) == n
  {
    assert (n as real).Floor == n;
  }

  /** `round(x, 4)`. */
  function Round4(x: real): real {
    RoundHalfEven(x * 10000.0) as real / 10000.0
  }

  /** `round(x, 3)`. */
  function Round3(x: real): real {
    RoundHalfEven(x * 1000.0) as real / 1000.0
  }

  lemma {:induction false} Round3Monotone(x: real, y: real)
    requires x <= y
    ensures Round3(x) <= Round3(y)
  {
    RoundMonotone(x * 1000.0, y * 1000.0);
  }

  /** `round(x, 6)`. */
  function Round6(x: real): real {
    RoundHalfEven(x * 1000000.0) as real / 1000000.0
  }

  function Milli(n: int): real {
    n as real / 1000.0
  }

  /** A whole number of thousandths. */
  ghost predicate Thousandths(x: real) {
    exists n :: x == Milli(n)
  }

  lemma {:induction false} Round3Whole(x: real)
    ensures Thousandths(Round3(x))
  {
    assert Round3(x) == Milli(RoundHalfEven(x * 1000.0));
  }

  lemma {:induction false} Round3Fixes(x: real)
    requires Thousandths(x)
    ensures Round3(x) == x
  {
    var n :| x == Milli(n);
    assert x * 1000.0 == n as real;
    RoundFixes(n);
  }

  lemma {:induction false} Round4Monotone(x: real, y: real)
    requires x <= y
    ensures Round4(x) <= Round4(y)
  {
    RoundMonotone(x * 10000.0, y * 10000.0);
  }

  lemma {:induction false} Round4Fixes(n: int)
    ensures Round4(n as real / 10000.0) == n as real / 10000.0
  {
    assert (n as real / 10000.0) * 10000.0 == n as real;
    RoundFixes(n);
  }

  /** A number half-way between two integers goes to the even one. */
  lemma {:induction false} TiesToEven(n: int)
    ensures RoundHalfEven(n as real + 0.5) == if n % 2 == 0 then n else n + 1
  {
    assert (n as real + 0.5).Floor == n;
  }

  /** Rounding to three, four or six places moves a number by at most half of the last. */
  lemma {:induction false} RoundsNear(x: real)
    ensures AbsReal(Round3(x) - x) <= 0.0005
    ensures AbsReal(Round4(x) - x) <= 0.00005
    ensures AbsReal(Round6(x) - x) <= 0.0000005
  {
    var n, m, k := RoundHalfEven(x * 1000.0), RoundHalfEven(x * 10000.0), RoundHalfEven(x * 1000000.0);
    assert n as real - 0.5 <= x * 1000.0 <= n as real + 0.5;
    assert m as real - 0.5 <= x * 10000.0 <= m as real + 0.5;
    assert k as real - 0.5 <= x * 1000000.0 <= k as real + 0.5;
  }
}
