/** The decimal context: powers of ten, and results rounded half-even to 28 significant digits. */
module Decimals {
  import opened Reals

  const PRECISION: int := 28

  function Ten(k: nat): (r: nat)
    ensures r > 0
  {
    if k == 0 then 1 else 10 * Ten(k - 1)
  }

  /** The real power of ten. */
  function Power(e: int): (r: real)
    ensures r > 0.0
    decreases if e < 0 then -e else e
  {
    if e == 0 then 1.0 else if e > 0 then 10.0 * Power(e - 1) else Power(e + 1) / 10.0
  }

  lemma PowerStep(e: int)
    ensures Power(e + 1) == 10.0 * Power(e)
  {
  }

  /** Powers at least grow tenfold with the exponent. */
  lemma {:induction false} PowerGrows(e: int, f: int)
    requires e < f
    ensures Power(f) >= 10.0 * Power(e)
    decreases f - e
  {
    PowerStep(f - 1);
    if e < f - 1 { PowerGrows(e, f - 1); }
  }

  lemma {:induction false} TenIsPower(k: nat)
    ensures Ten(k) as real == Power(k)
  {
    if k > 0 { TenIsPower(k - 1); }
  }

  lemma {:induction false} PowerPlus(e: int, k: nat)
    ensures Power(e + k) == Ten(k) as real * Power(e)
    decreases k
  {
    if k > 0 {
      PowerPlus(e, k - 1);
      PowerStep(e + k - 1);
      TenTimes(k, Power(e));
    }
  }

  lemma TenTimes(k: nat, x: real)
    requires k > 0
    ensures 10.0 * (Ten(k - 1) as real * x) == Ten(k) as real * x
  {
    assert Ten(k) as real == 10.0 * Ten(k - 1) as real;
  }

  lemma {:induction false} TenPlus(a: nat, b: nat)
    ensures Ten(a + b) == Ten(a) * Ten(b)
  {
    if a > 0 { TenPlus(a - 1, b); }
  }

  // --- The exponent of a number ---

  function ExponentAbove(x: real): (e: int)
    requires x >= 1.0
    decreases x.Floor
  {
    if x < 10.0 then 0 else ExponentAbove(x / 10.0) + 1
  }

  function ExponentBelow(x: real): (e: int)
    requires 0.0 < x < 1.0
    decreases (1.0 / x).Floor
  {
    if 10.0 * x >= 1.0 then -1
    else
      TenthOfInverse(x);
      ExponentBelow(10.0 * x) - 1
  }

  lemma TenthOfInverse(x: real)
    requires 0.0 < x && 10.0 * x < 1.0
    ensures 0 <= (1.0 / (10.0 * x)).Floor < (1.0 / x).Floor
  {
    var y := 1.0 / x;
    QuotientTimes(1.0, x);
    Cancel(10.0, y, x);
    var z := 1.0 / (10.0 * x);
    QuotientTimes(1.0, 10.0 * x);
    assert z * (10.0 * x) == 1.0 == y * x;
    assert (10.0 * z) * x == z * (10.0 * x);
    Cancel(10.0 * z, y, x);
  }

  /** The exponent of the leading digit. */
  function Exponent(x: real): int
    requires x > 0.0
  {
    if x >= 1.0 then ExponentAbove(x) else ExponentBelow(x)
  }

  lemma {:induction false} ExponentAboveBounds(x: real)
    requires x >= 1.0
    ensures Power(ExponentAbove(x)) <= x < Power(ExponentAbove(x) + 1)
    decreases x.Floor
  {
    if x >= 10.0 {
      ExponentAboveBounds(x / 10.0);
      PowerStep(ExponentAbove(x / 10.0));
      PowerStep(ExponentAbove(x / 10.0) + 1);
    } else {
      assert Power(0) == 1.0 && Power(1) == 10.0;
    }
  }

  lemma {:induction false} ExponentBelowBounds(x: real)
    requires 0.0 < x < 1.0
    ensures Power(ExponentBelow(x)) <= x < Power(ExponentBelow(x) + 1)
    decreases (1.0 / x).Floor
  {
    if 10.0 * x < 1.0 {
      TenthOfInverse(x);
      ExponentBelowBounds(10.0 * x);
      PowerStep(ExponentBelow(x));
      PowerStep(ExponentBelow(x) + 1);
    } else {
      assert Power(-1) == 0.1 && Power(0) == 1.0;
    }
  }

  lemma ExponentBounds(x: real)
    requires x > 0.0
    ensures Power(Exponent(x)) <= x < Power(Exponent(x) + 1)
  {
    if x >= 1.0 { ExponentAboveBounds(x); } else { ExponentBelowBounds(x); }
  }

  lemma ExponentIs(x: real, e: int)
    requires x > 0.0 && Power(e) <= x < Power(e + 1)
    ensures Exponent(x) == e
  {
    ExponentBounds(x);
    var f := Exponent(x);
    if f < e { AtMost(f + 1, e); }
    if e < f { AtMost(e + 1, f); }
  }

  lemma AtMost(e: int, f: int)
    requires e <= f
    ensures Power(e) <= Power(f)
  {
    if e < f { PowerGrows(e, f); }
  }

  lemma ExponentOrder(x: real, y: real)
    requires 0.0 < x <= y
    ensures Exponent(x) <= Exponent(y)
  {
    ExponentBounds(x);
    ExponentBounds(y);
    if Exponent(y) < Exponent(x) { AtMost(Exponent(y) + 1, Exponent(x)); }
  }

  // --- Rounding ---

  /** The nearest integer, ties to the even one. */
  function HalfEven(x: real): int {
    var n := x.Floor;
    var rest := x - n as real;
    if rest > 0.5 || (rest == 0.5 && n % 2 == 1) then n + 1 else n
  }

  lemma HalfEvenIff(x: real, n: int)
    ensures HalfEven(x) == n <==>
            || -0.5 < x - n as real < 0.5
            || ((x - n as real == 0.5 || x - n as real == -0.5) && n % 2 == 0)
  {
  }

  /** The value of the last digit a result of this size keeps. */
  function Unit(x: real): (u: real)
    requires x > 0.0
    ensures u > 0.0
  {
    Power(Exponent(x) - (PRECISION - 1))
  }

  /** A non-negative result as the context returns it. */
  function Round(x: real): real
    requires x >= 0.0
  {
    if x == 0.0 then 0.0 else Times(HalfEven(x / Unit(x)), Unit(x))
  }

  /** A result of either sign as the context returns it. */
  function SignedRound(x: real): real {
    if x < 0.0 then -Round(-x) else Round(x)
  }

  function Times(n: int, unit: real): real {
    n as real * unit
  }

  /** A whole number of units. */
  ghost predicate OnGrid(r: real, unit: real) {
    exists n: int :: r == Times(n, unit)
  }

  /** `n` units are the nearest whole number of units to `x`, ties to the even number. */
  predicate NearestAt(x: real, n: int, unit: real) {
    var d := x - Times(n, unit);
    || -(unit / 2.0) < d < unit / 2.0
    || ((d == unit / 2.0 || d == -(unit / 2.0)) && n % 2 == 0)
  }

  /** The half-even neighbour of `x` among the whole numbers of units. */
  ghost predicate Nearest(x: real, r: real, unit: real) {
    exists n: int :: r == Times(n, unit) && NearestAt(x, n, unit)
  }

  lemma TimesCancel(a: int, b: int, unit: real)
    requires unit > 0.0
    ensures (Times(a, unit) == Times(b, unit) <==> a == b) && (a < b <==> Times(a, unit) < Times(b, unit))
  {
    ScaledOrder(a as real, b as real, unit);
  }

  lemma HalfEvenNearest(x: real, n: int, unit: real)
    requires unit > 0.0
    ensures HalfEven(x / unit) == n <==> NearestAt(x, n, unit)
  {
    var y := x / unit;
    var e, d := y - n as real, x - Times(n, unit);
    QuotientTimes(x, unit);
    DifferenceTimes(y, n as real, unit);
    assert e * unit == d;
    HalfScaled(e, d, unit);
    HalfEvenIff(y, n);
    hide HalfEven, Times;
  }

  lemma HalfScaled(e: real, d: real, unit: real)
    requires unit > 0.0 && e * unit == d
    ensures (e < 0.5 <==> d < unit / 2.0) && (e == 0.5 <==> d == unit / 2.0)
    ensures (-0.5 < e <==> -(unit / 2.0) < d) && (e == -0.5 <==> d == -(unit / 2.0))
  {
    ScaledOrder(e, 0.5, unit);
    ScaledOrder(-0.5, e, unit);
    assert 0.5 * unit == unit / 2.0;
    assert (-0.5) * unit == -(unit / 2.0);
  }

  /** The context's result is the half-even neighbour with 28 digits, and the only one. */
  lemma RoundIff(x: real, r: real)
    requires x > 0.0
    ensures Round(x) == r <==> Nearest(x, r, Unit(x))
  {
    var u := Unit(x);
    var m := HalfEven(x / u);
    hide HalfEven, Unit, Times, NearestAt;
    HalfEvenNearest(x, m, u);
    assert Round(x) == Times(m, u);
    if Nearest(x, r, u) {
      var n: int :| r == Times(n, u) && NearestAt(x, n, u);
      HalfEvenNearest(x, n, u);
    }
  }

  lemma HalfEvenBetween(y: real, a: int, b: int)
    requires a as real <= y <= b as real
    ensures a <= HalfEven(y) <= b
  {
  }

  /** A number is between 10^27 and 10^28 of its units. */
  lemma UnitsBounds(x: real)
    requires x > 0.0
    ensures Ten(PRECISION - 1) <= HalfEven(x / Unit(x)) <= Ten(PRECISION)
    ensures Power(Exponent(x)) == Times(Ten(PRECISION - 1), Unit(x))
            && Power(Exponent(x) + 1) == Times(Ten(PRECISION), Unit(x))
  {
    hide Ten, Power, HalfEven;
    var u, e := Unit(x), Exponent(x);
    ExponentBounds(x);
    PowerPlus(e - (PRECISION - 1), PRECISION - 1);
    PowerPlus(e - (PRECISION - 1), PRECISION);
    assert u == Power(e - (PRECISION - 1));
    hide Unit, Exponent;
    var low, high := Ten(PRECISION - 1), Ten(PRECISION);
    assert Power(e) == Times(low, u) && Power(e + 1) == Times(high, u);
    UnitsBetween(x, u, low, high);
    HalfEvenBetween(x / u, low, high);
  }

  lemma UnitsBetween(x: real, u: real, low: int, high: int)
    requires u > 0.0 && Times(low, u) <= x <= Times(high, u)
    ensures low as real <= x / u <= high as real
  {
    var y := x / u;
    QuotientTimes(x, u);
    ScaledOrder(y, low as real, u);
    ScaledOrder(high as real, y, u);
    assert !(y < low as real) && !(high as real < y);
  }

  lemma RoundPositive(x: real)
    requires x > 0.0
    ensures Round(x) > 0.0 && Power(Exponent(x)) <= Round(x) <= Power(Exponent(x) + 1)
  {
    var u, n := Unit(x), HalfEven(x / Unit(x));
    UnitsBounds(x);
    hide Ten, Power, HalfEven, Exponent, Unit;
    TimesCancel(n, Ten(PRECISION - 1), u);
    TimesCancel(Ten(PRECISION), n, u);
    assert Round(x) == Times(n, u);
    hide Times;
    assert Power(Exponent(x)) > 0.0;
  }

  /** A number of at most 28 digits is returned as it is. */
  lemma Representable(n: nat, k: int)
    requires 0 < n <= Ten(PRECISION)
    ensures Times(n, Power(k)) > 0.0 && Round(Times(n, Power(k))) == Times(n, Power(k))
  {
    hide Ten, Power, Exponent, HalfEven;
    var r := Times(n, Power(k));
    ProductPositive(n as real, Power(k));
    GridOfFewDigits(n, k);
    assert Unit(r) == Power(Exponent(r) - (PRECISION - 1));
    ExactOnGrid(r);
  }

  /** A number on its own grid is returned as it is. */
  lemma ExactOnGrid(r: real)
    requires r > 0.0 && OnGrid(r, Unit(r))
    ensures Round(r) == r
  {
    hide Unit, Times, HalfEven;
    var m: int :| r == Times(m, Unit(r));
    assert NearestAt(r, m, Unit(r));
    RoundIff(r, r);
  }

  lemma GridOfFewDigits(n: nat, k: int)
    requires 0 < n <= Ten(PRECISION) && Times(n, Power(k)) > 0.0
    ensures var r := Times(n, Power(k)); OnGrid(r, Power(Exponent(r) - (PRECISION - 1)))
  {
    hide Ten, Power, Exponent;
    var r := Times(n, Power(k));
    var j := Exponent(r) - (PRECISION - 1);
    ExponentBounds(r);
    if j <= k {
      PowerPlus(j, k - j);
      Associate(n, Ten(k - j), Power(j));
    } else {
      AtMost(k + PRECISION, Exponent(r));
      PowerPlus(k, PRECISION);
      assert Power(k + PRECISION) == Times(Ten(PRECISION), Power(k));
      TimesCancel(n, Ten(PRECISION), Power(k));
      assert r == Power(k + PRECISION);
      PowerStep(k + PRECISION);
      ExponentIs(r, k + PRECISION);
      PowerPlus(k + 1, PRECISION - 1);
      assert r == Times(Ten(PRECISION - 1), Power(j));
    }
  }

  lemma Associate(a: nat, b: nat, x: real)
    ensures Times(a, b as real * x) == Times(a * b, x)
  {
    assert (a * b) as real == a as real * b as real;
  }

  lemma SignedRoundSign(x: real)
    ensures (x >= 0.0 <==> SignedRound(x) >= 0.0) && (x > 0.0 <==> SignedRound(x) > 0.0)
  {
    hide Exponent, Unit, HalfEven;
    if x > 0.0 { RoundPositive(x); }
    if x < 0.0 { RoundPositive(-x); }
  }

  /** A rounded fraction stays below one unless the fraction is within half of the 28th decimal of one. */
  lemma RoundBelowOne(x: real)
    requires 0.0 <= x && x < 1.0 - Power(-PRECISION)
    ensures 0.0 <= Round(x) < 1.0
  {
    if x > 0.0 {
      assert Power(0) == 1.0;
      hide Power, Round, HalfEven;
      RoundPositive(x);
      ExponentBounds(x);
      if Exponent(x) >= 0 { AtMost(0, Exponent(x)); }
      AtMost(Exponent(x) - (PRECISION - 1), -PRECISION);
      assert Unit(x) <= Power(-PRECISION);
      hide Exponent, Unit, Times;
      RoundIff(x, Round(x));
      var n: int :| Round(x) == Times(n, Unit(x)) && NearestAt(x, n, Unit(x));
    }
  }
}
