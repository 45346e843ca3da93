/** Optional values: JavaScript's `null` beside a present value. */
module Wrappers {
  datatype Option<+T> = None | Some(value: T)
}

/**
 * The JavaScript number operations the finance engine relies on, over exact
 * reals: `Math.min`, `Math.max`, `Math.pow` with a whole exponent,
 * `Math.round`, `Math.ceil` and `Number(x.toFixed(d))`.
 */
module JsMath {

  function Min(a: real, b: real): (m: real)
    ensures m <= a && m <= b && (m == a || m == b)
  {
    if a <= b then a else b
  }

  function Max(a: real, b: real): (m: real)
    ensures m >= a && m >= b && (m == a || m == b)
  {
    if a >= b then a else b
  }

  /** Division `x / d` by a divisor that is not zero. */
  function Div(x: real, d: real): (q: real)
    requires d != 0.0
    ensures q * d == x
  {
    x / d
  }

  /** `Math.pow(b, n)` for a whole exponent n >= 0. */
  function Pow(b: real, n: nat): real
  {
    if n == 0 then 1.0 else b * Pow(b, n - 1)
  }

  /** `Math.round`: the nearest integer, halves rounded towards +infinity. */
  function Round(x: real): (r: int)
    ensures x - 0.5 < r as real <= x + 0.5
  {
    (x + 0.5).Floor
  }

  /** `Math.ceil`: the least integer not below x. */
  function Ceil(x: real): (c: int)
    ensures x <= c as real < x + 1.0
  {
    -((-x).Floor)
  }

  function DecimalScale(digits: nat): (s: nat)
    ensures s >= 1
  {
    if digits == 0 then 1 else 10 * DecimalScale(digits - 1)
  }

  /** A magnitude m >= 0 rounded to the nearest multiple of 1/s, halves up. */
  function RoundedMagnitude(m: real, s: real): (r: real)
    requires m >= 0.0 && s >= 1.0
    ensures m - 0.5 / s <= r <= m + 0.5 / s && r >= 0.0
  {
    var k := Round(m * s);
    assert k >= 0;
    assert (k as real) / s - m == (k as real - m * s) / s;
    (k as real) / s
  }

  /**
   * `Number(x.toFixed(digits))`: x rounded to `digits` decimals. toFixed works
   * on the magnitude and, of two equally near candidates, keeps the larger
   * one, so halves round away from zero. The result has at most `digits`
   * decimals and lies within half a unit of the last of them from x.
   */
  function ToFixed(x: real, digits: nat): (r: real)
    ensures x - 0.5 / DecimalScale(digits) as real <= r <= x + 0.5 / DecimalScale(digits) as real
    ensures x >= 0.0 ==> r >= 0.0
    ensures x <= 0.0 ==> r <= 0.0
  {
    var s := DecimalScale(digits) as real;
    if x >= 0.0 then RoundedMagnitude(x, s) else -RoundedMagnitude(-x, s)
  }

  /** RoundedMagnitude lands on a whole number of 1/s steps. */
  lemma RoundedMagnitudeSteps(m: real, s: real) returns (k: int)
    requires m >= 0.0 && s >= 1.0
    ensures RoundedMagnitude(m, s) * s == k as real
  {
    k := Round(m * s);
  }

  /** toFixed keeps at most `digits` decimals: scaled back up, the result is an integer k. */
  lemma ToFixedSteps(x: real, digits: nat) returns (k: int)
    ensures ToFixed(x, digits) * DecimalScale(digits) as real == k as real
  {
    var s := DecimalScale(digits) as real;
    var m := RoundedMagnitude(if x >= 0.0 then x else -x, s);
    var j := RoundedMagnitudeSteps(if x >= 0.0 then x else -x, s);
    var t := ToFixed(x, digits);
    if x >= 0.0 {
      assert t == m;
      k := j;
    } else {
      assert t == -m;
      assert t * s == -(m * s);
      k := -j;
    }
    assert t * s == k as real;
  }

  lemma {:induction false} RoundMonotone(x: real, y: real)
    requires x <= y
    ensures Round(x) <= Round(y)
  {
  }

  lemma RoundedMagnitudeMonotone(lo: real, hi: real, s: real)
    requires 0.0 <= lo <= hi && s >= 1.0
    ensures RoundedMagnitude(lo, s) <= RoundedMagnitude(hi, s)
  {
    assert hi * s - lo * s == (hi - lo) * s;
    assert (hi - lo) * s >= 0.0;
    assert lo * s <= hi * s;
    var klo, khi := Round(lo * s) as real, Round(hi * s) as real;
    assert klo <= khi;
    assert khi / s - klo / s == (khi - klo) / s;
  }

  /** toFixed never reorders two numbers. */
  lemma ToFixedMonotone(x: real, y: real, digits: nat)
    requires x <= y
    ensures ToFixed(x, digits) <= ToFixed(y, digits)
  {
    var s := DecimalScale(digits) as real;
    if x >= 0.0 {
      RoundedMagnitudeMonotone(x, y, s);
    } else if y < 0.0 {
      RoundedMagnitudeMonotone(-y, -x, s);
    }
  }

  lemma ToFixedOfZero(digits: nat)
    ensures ToFixed(0.0, digits) == 0.0
  {
  }

  // Signs of products and quotients, which the solver's nonlinear
  // arithmetic does not always find by itself.

  lemma MulNonNeg(a: real, b: real)
    requires a >= 0.0 && b >= 0.0
    ensures a * b >= 0.0
  {
  }

  lemma MulPos(a: real, b: real)
    requires a > 0.0 && b > 0.0
    ensures a * b > 0.0
  {
  }

  lemma MulStrict(a: real, b: real, c: real)
    requires a < b && c > 0.0
    ensures a * c < b * c
  {
    MulPos(b - a, c);
    assert (b - a) * c == b * c - a * c;
  }

  lemma MulLe(a: real, b: real, c: real)
    requires a <= b && c >= 0.0
    ensures a * c <= b * c
  {
    MulNonNeg(b - a, c);
    assert (b - a) * c == b * c - a * c;
  }

  lemma SignFromProduct(x: real, c: real)
    requires c > 0.0
    ensures x * c >= 0.0 ==> x >= 0.0
    ensures x * c > 0.0 ==> x > 0.0
  {
    if x < 0.0 {
      MulPos(-x, c);
      assert (-x) * c == -(x * c);
    }
  }

  lemma DivideMonotone(a: real, b: real, d: real)
    requires a <= b && d > 0.0
    ensures a / d <= b / d
  {
    assert b / d - a / d == (b - a) / d;
  }

  lemma DivSign(x: real, d: real)
    requires d > 0.0
    ensures x >= 0.0 ==> Div(x, d) >= 0.0
  {
    SignFromProduct(Div(x, d), d);
  }
}
