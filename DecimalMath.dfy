/** `System.Decimal` arithmetic as the up-down control uses it: values are exact base-10
    numbers, modelled as `real`, and `Decimal.Round(d, decimals)` rounds half to even. */
module DecimalMath {

  function Pow10(n: nat): (p: nat)
    ensures p >= 1
  {
    if n == 0 then 1 else 10 * Pow10(n - 1)
  }

  /** The number of steps of size 10^-dp in one unit. */
  function Scale(dp: nat): (s: real)
    ensures s >= 1.0
  {
    Pow10(dp) as real
  }

  /** A decimal with at most `dp` digits after the point: a whole number of steps 10^-dp. */
  ghost predicate OnGrid(x: real, dp: nat)
  {
    exists n: int {:trigger n as real} :: n as real == x * Scale(dp)
  }

  /** `MidpointRounding.ToEven` to a whole number: the nearest integer, and the even one of
      the two when `x` lies exactly half-way. */
  function RoundHalfEven(x: real): (n: int)
    ensures x - 0.5 <= n as real <= x + 0.5
    ensures n as real == x - 0.5 || n as real == x + 0.5 ==> n % 2 == 0
    ensures x == x.Floor as real ==> n == x.Floor
  {
    var f := x.Floor;
    var frac := x - f as real;
    if frac < 0.5 then f
    else if frac > 0.5 then f + 1
    else if f % 2 == 0 then f
    else f + 1
  }

  /** `Decimal.Round(x, dp)`. */
  function Round(x: real, dp: nat): real
  {
    RoundHalfEven(x * Scale(dp)) as real / Scale(dp)
  }

  /** Counted in steps of 10^-dp, `Round` is `RoundHalfEven`. */
  lemma RoundScaled(x: real, dp: nat)
    ensures Round(x, dp) * Scale(dp) == RoundHalfEven(x * Scale(dp)) as real
  {
  }

  /** The rounded value has at most `dp` decimals and lies within half a step of `x`. */
  lemma RoundNearest(x: real, dp: nat)
    ensures OnGrid(Round(x, dp), dp)
    ensures x * Scale(dp) - 0.5 <= Round(x, dp) * Scale(dp) <= x * Scale(dp) + 0.5
  {
    RoundScaled(x, dp);
    var n := RoundHalfEven(x * Scale(dp));
    assert n as real == Round(x, dp) * Scale(dp);
  }

  /** A value that already has at most `dp` decimals is not changed by rounding. */
  lemma RoundOnGrid(x: real, dp: nat)
    requires OnGrid(x, dp)
    ensures Round(x, dp) == x
  {
    var s := Scale(dp);
    var n: int :| n as real == x * s;
    assert (x * s).Floor == n;
    RoundScaled(x, dp);
    assert Round(x, dp) * s == x * s;
    MulCancel(Round(x, dp), x, s);
  }

  /** Rounding twice rounds no further. */
  lemma RoundIdempotent(x: real, dp: nat)
    ensures Round(Round(x, dp), dp) == Round(x, dp)
  {
    RoundNearest(x, dp);
    RoundOnGrid(Round(x, dp), dp);
  }

  /** Rounding to a whole number keeps the order of its arguments. */
  lemma RoundHalfEvenMonotone(x: real, y: real)
    requires x <= y
    ensures RoundHalfEven(x) <= RoundHalfEven(y)
  {
  }

  /** `Decimal.Round` keeps the order of its arguments. */
  lemma RoundMonotone(x: real, y: real, dp: nat)
    requires x <= y
    ensures Round(x, dp) <= Round(y, dp)
  {
    MulLe(x, y, Scale(dp));
    RoundHalfEvenMonotone(x * Scale(dp), y * Scale(dp));
    RoundScaled(x, dp);
    RoundScaled(y, dp);
    ScaledLe(Round(x, dp), Round(y, dp), Scale(dp));
  }

  lemma MulLe(x: real, y: real, s: real)
    requires x <= y && s > 0.0
    ensures x * s <= y * s
  {
    assert y * s - x * s == (y - x) * s;
  }

  lemma ScaledLe(x: real, y: real, s: real)
    requires x * s <= y * s && s > 0.0
    ensures x <= y
  {
    if y < x {
      MulLe(y, x, s);
      MulCancel(x, y, s);
    }
  }

  lemma MulCancel(x: real, y: real, s: real)
    requires x * s == y * s && s > 0.0
    ensures x == y
  {
    assert (x - y) * s == 0.0;
  }

  /** Sums and differences of values on the grid stay on it. */
  lemma OnGridAddSub(x: real, y: real, dp: nat)
    requires OnGrid(x, dp) && OnGrid(y, dp)
    ensures OnGrid(x + y, dp) && OnGrid(x - y, dp)
  {
    var s := Scale(dp);
    var n: int :| n as real == x * s;
    var m: int :| m as real == y * s;
    assert (x + y) * s == x * s + y * s;
    assert (x - y) * s == x * s - y * s;
    assert (n + m) as real == (x + y) * s;
    assert (n - m) as real == (x - y) * s;
  }

  /** The step 10^-dp. */
  lemma StepOnGrid(dp: nat)
    ensures OnGrid(1.0 / Scale(dp), dp) && 1.0 / Scale(dp) > 0.0
  {
    assert (1 as real) == (1.0 / Scale(dp)) * Scale(dp);
  }

  /** Zero is on every grid. */
  lemma ZeroOnGrid(dp: nat)
    ensures OnGrid(0.0, dp)
  {
    assert (0 as real) == 0.0 * Scale(dp);
  }

  /** Banker's rounding on the half-way cases of the `MidpointRounding.ToEven` table. */
  lemma RoundHalfEvenExamples()
    ensures RoundHalfEven(2.5) == 2 && RoundHalfEven(3.5) == 4
    ensures RoundHalfEven(-2.5) == -2 && RoundHalfEven(0.5) == 0
  {
  }
}
