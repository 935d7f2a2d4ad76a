/** The two growth quotients of a capacity expansion, as the decimal context rounds them, and when they agree. */
module CapacityGrowth {
  import opened Reals
  import opened Decimals

  /** `a / b` under the context. */
  function Quotient(a: real, b: real): real
    requires a >= 0.0 && b > 0.0
  {
    QuotientOrder(0.0, a, b);
    Round(a / b)
  }

  lemma QuotientNonNegative(a: real, b: real)
    requires a >= 0.0 && b > 0.0
    ensures Quotient(a, b) >= 0.0
  {
    QuotientOrder(0.0, a, b);
    hide Round;
    if a / b > 0.0 { RoundPositive(a / b); } else { RoundZero(); }
  }

  /** `after / before - 1` under the context. */
  function FromWhole(before: real, after: real): real
    requires 0.0 < before < after
  {
    WholeAboveOne(before, after);
    Round(Quotient(after, before) - 1.0)
  }

  /** `additional / before` under the context. */
  function FromPart(before: real, additional: real): real
    requires before > 0.0 && additional > 0.0
  {
    Quotient(additional, before)
  }

  lemma QuotientAboveOne(before: real, after: real)
    requires 0.0 < before < after
    ensures after / before > 1.0
  {
    QuotientTimes(after, before);
    ScaledOrder(1.0, after / before, before);
  }

  lemma RoundAtLeastOne(q: real)
    requires q >= 1.0
    ensures Round(q) >= 1.0
  {
    hide Round;
    ExponentOrder(1.0, q);
    ExponentIs(1.0, 0) by { assert Power(0) == 1.0 && Power(1) == 10.0; }
    AtMost(0, Exponent(q));
    RoundPositive(q);
    assert Power(0) == 1.0;
  }

  lemma WholeAboveOne(before: real, after: real)
    requires 0.0 < before < after
    ensures after / before > 1.0 && Quotient(after, before) >= 1.0
  {
    QuotientAboveOne(before, after);
    hide Round;
    RoundAtLeastOne(after / before);
  }

  lemma PartPositive(before: real, additional: real)
    requires before > 0.0 && additional > 0.0
    ensures additional / before > 0.0 && FromPart(before, additional) > 0.0
  {
    QuotientTimes(additional, before);
    ScaledOrder(0.0, additional / before, before);
    hide Round;
    RoundPositive(additional / before);
  }

  // --- Taking one away ---

  /** Up to 10^28 taking one away is exact: ones are whole units of such a number. */
  lemma MinusOneExact(q: real)
    requires q >= 1.0 && Exponent(q) < PRECISION
    ensures Round(q) >= 1.0 && Round(Round(q) - 1.0) == Round(q) - 1.0
  {
    hide Round, Ten, Power, HalfEven, Exponent;
    RoundAtLeastOne(q);
    var u, n := Unit(q), HalfEven(q / Unit(q));
    var k := PRECISION - 1 - Exponent(q);
    UnitsBounds(q);
    OneInUnits(q);
    assert Round(q) == Times(n, u) by { RoundIsUnits(q); }
    var m := n - Ten(k);
    DifferenceTimes(n as real, Ten(k) as real, u);
    assert Round(q) - 1.0 == Times(m, u);
    if m > 0 {
      Representable(m, Exponent(q) - (PRECISION - 1));
      assert u == Power(Exponent(q) - (PRECISION - 1));
    } else {
      TimesCancel(m, 0, u);
      assert Times(0, u) == 0.0;
      assert Round(q) - 1.0 == 0.0;
      RoundZero();
    }
  }

  lemma RoundZero()
    ensures Round(0.0) == 0.0
  {
  }

  lemma RoundIsUnits(x: real)
    requires x > 0.0
    ensures Round(x) == Times(HalfEven(x / Unit(x)), Unit(x))
  {
  }

  /** One, in units of a number from 1 up to 10^28. */
  lemma OneInUnits(q: real)
    requires q >= 1.0 && Exponent(q) < PRECISION
    ensures 0 <= Exponent(q) && Times(Ten(PRECISION - 1 - Exponent(q)), Unit(q)) == 1.0
  {
    hide Ten, Exponent;
    ExponentOrder(1.0, q);
    ExponentIs(1.0, 0) by { assert Power(0) == 1.0 && Power(1) == 10.0; }
    var k := PRECISION - 1 - Exponent(q);
    PowerPlus(-k, k);
    assert Power(0) == 1.0;
  }

  lemma PowersAtLeast(e: int)
    requires e >= PRECISION
    ensures Power(e - (PRECISION - 1)) >= 10.0 && Power(e) >= Power(PRECISION)
    ensures e > PRECISION ==> Power(e) >= 10.0 * Power(PRECISION) && Power(e - PRECISION) >= 10.0
  {
    assert Power(1) == 10.0;
    hide Power;
    AtMost(1, e - (PRECISION - 1));
    AtMost(PRECISION, e);
    if e > PRECISION {
      PowerGrows(PRECISION, e);
      AtMost(1, e - PRECISION);
    }
  }

  /** A result that is `r` units less one is `r` units again, when a unit is at least ten. */
  lemma Absorbed(r: real, n: int, u: real)
    requires u >= 10.0 && r == Times(n, u) && r - 1.0 > 0.0 && Unit(r - 1.0) == u
    ensures Round(r - 1.0) == r
  {
    hide Times, Unit, Round;
    assert NearestAt(r - 1.0, n, u);
    RoundIff(r - 1.0, r);
  }

  /** Beyond 10^28 a one is lost in the rounding. */
  lemma MinusOneLost(q: real)
    requires q >= 1.0 && Exponent(q) >= PRECISION && Round(q) > Power(PRECISION) && Round(q) >= 1.0
    ensures Round(Round(q) - 1.0) == Round(q)
  {
    hide Round, Ten, Power, HalfEven, Exponent, Times;
    var e, u, n, r := Exponent(q), Unit(q), HalfEven(q / Unit(q)), Round(q);
    UnitsBounds(q);
    RoundIsUnits(q);
    PowersAtLeast(e);
    assert u == Power(e - (PRECISION - 1));
    if n > Ten(PRECISION - 1) {
      NextUnit(n, Ten(PRECISION - 1), u);
      RoundPositive(q);
      ExponentIs(r - 1.0, e);
      Absorbed(r, n, u);
    } else {
      assert r == Power(e);
      assert e > PRECISION;
      PowerStep(e - 1);
      ExponentIs(r - 1.0, e - 1) by { assert Power(e - 1) > 0.0; PowersAtLeast(e); AtMost(0, e - 1); LeastPower(); }
      PowerPlus(e - PRECISION, PRECISION);
      assert r == Times(Ten(PRECISION), Power(e - PRECISION)) by { TimesUnfold(Ten(PRECISION), Power(e - PRECISION)); }
      Absorbed(r, Ten(PRECISION), Power(e - PRECISION));
    }
  }

  lemma LeastPower()
    ensures Power(0) == 1.0
  {
  }

  lemma TimesUnfold(n: int, u: real)
    ensures Times(n, u) == n as real * u
  {
  }

  lemma NextUnit(n: int, m: int, u: real)
    requires n > m && u >= 1.0
    ensures Times(n, u) - 1.0 >= Times(m, u)
  {
    TimesCancel(m + 1, n, u);
    DifferenceTimes((m + 1) as real, m as real, u);
  }

  /** What remains after taking one away from a rounded quotient. */
  lemma MinusOne(q: real)
    requires q >= 1.0
    ensures Round(q) >= 1.0
    ensures Round(Round(q) - 1.0) == if Round(q) <= Power(PRECISION) then Round(q) - 1.0 else Round(q)
  {
    hide Round, Power, Exponent, Ten, HalfEven;
    RoundAtLeastOne(q);
    RoundPositive(q);
    var e, r := Exponent(q), Round(q);
    if e < PRECISION {
      MinusOneExact(q);
      AtMost(e + 1, PRECISION);
    } else if r > Power(PRECISION) {
      MinusOneLost(q);
    } else {
      PowersAtLeast(e);
      assert r == Power(PRECISION);
      OneBelowPower();
    }
  }

  lemma OneBelowPower()
    ensures Power(PRECISION) > 1.0 && Round(Power(PRECISION) - 1.0) == Power(PRECISION) - 1.0
  {
    LeastPower();
    hide Power, Round, Ten;
    TenIsPower(PRECISION);
    TenAboveOne(PRECISION);
    var n := Ten(PRECISION) - 1;
    Representable(n, 0);
    assert Times(n, Power(0)) == n as real;
  }

  lemma TenAboveOne(k: nat)
    requires k > 0
    ensures Ten(k) > 1
  {
    assert Ten(k) == 10 * Ten(k - 1);
  }

  /** The largest quotient whose rounded value is at most 10^28. */
  lemma WithinPrecisionIff(q: real)
    requires q >= 1.0
    ensures Round(q) <= Power(PRECISION) <==> q <= Power(PRECISION) + 5.0
  {
    hide Round, Power, Exponent, Ten, HalfEven, NearestAt, Times;
    ExponentBounds(q);
    RoundPositive(q);
    var e := Exponent(q);
    assert Power(PRECISION) >= 10.0 by { TenPower(); AtMost(1, PRECISION); }
    if e < PRECISION {
      AtMost(e + 1, PRECISION);
    } else if e > PRECISION {
      PowersAtLeast(e);
    } else {
      TenPower();
      PowerPlus(1, PRECISION - 1);
      TimesUnfold(Ten(PRECISION - 1), 10.0);
      assert Unit(q) == 10.0 && Times(Ten(PRECISION - 1), 10.0) == Power(PRECISION);
      TieAtPower(q);
    }
  }

  lemma TenPower()
    ensures Power(1) == 10.0
  {
  }

  lemma TieAtPower(q: real)
    requires Power(PRECISION) <= q && Unit(q) == 10.0 && Times(Ten(PRECISION - 1), 10.0) == Power(PRECISION)
    requires Round(q) >= Power(PRECISION)
    ensures Round(q) <= Power(PRECISION) <==> q <= Power(PRECISION) + 5.0
  {
    hide Round, Power, Times, Unit;
    TenEven(PRECISION - 1);
    hide Ten;
    var m := Ten(PRECISION - 1);
    RoundIff(q, Power(PRECISION));
    if q <= Power(PRECISION) + 5.0 { assert NearestAt(q, m, 10.0); }
    if Nearest(q, Power(PRECISION), 10.0) {
      var n: int :| Power(PRECISION) == Times(n, 10.0) && NearestAt(q, n, 10.0);
    }
  }

  lemma TenEven(k: nat)
    requires k > 0
    ensures Ten(k) % 2 == 0
  {
    TenTimesEven(Ten(k - 1));
    assert Ten(k) == 10 * Ten(k - 1);
    hide Ten;
  }

  lemma TenTimesEven(n: nat)
    ensures 10 * n % 2 == 0
  {
  }

  // --- When the two quotients agree ---

  /** One more than the growth, or the growth itself once a one no longer shows. */
  function WholeOf(q: real, growth: real): real {
    if q <= Power(PRECISION) + 5.0 then 1.0 + growth else growth
  }

  /**
   * For all inputs: the two quotients agree exactly when the half-even neighbour of after/before, in the last of its
   * 28 digits, is one more than the rounded additional/before.
   */
  lemma AgreeIff(before: real, after: real, additional: real)
    requires 0.0 < before < after && additional > 0.0
    ensures after / before > 1.0
    ensures FromWhole(before, after) == FromPart(before, additional) <==>
            Nearest(after / before, WholeOf(after / before, FromPart(before, additional)), Unit(after / before))
  {
    hide Round, Power, Nearest, Unit;
    var q, growth := after / before, FromPart(before, additional);
    QuotientAboveOne(before, after);
    WithinPrecisionIff(q);
    MinusOne(q);
    RoundIff(q, WholeOf(q, growth));
  }

  lemma WholeIsOnePlusPart(before: real, additional: real)
    requires before > 0.0
    ensures (before + additional) / before == 1.0 + additional / before
  {
    QuotientTimes(before + additional, before);
    QuotientTimes(additional, before);
    assert (1.0 + additional / before) * before == before + additional / before * before;
    Cancel((before + additional) / before, 1.0 + additional / before, before);
  }

  /** Distances to a rounded number, in the units of a larger one. */
  lemma WithinHalf(x: real, growth: real, u: real)
    requires x > 0.0 && growth == Round(x) && Unit(x) <= u && OnGrid(growth, u) && u > 0.0
    ensures exists m: int :: growth == Times(m, u) && NearestAt(x, m, u)
  {
    hide Round, Unit, Times;
    RoundIff(x, growth);
    var n: int :| growth == Times(n, Unit(x)) && NearestAt(x, n, Unit(x));
    var m: int :| growth == Times(m, u);
    if Unit(x) == u { TimesCancel(m, n, u); }
  }

  /**
   * When after = before + additional (and the quotient is below 10^27), the code still yields a ratio only if the
   * rounded growth has no digit beyond the last digit of after/before.
   */
  lemma ConsistentAgreeIff(before: real, additional: real)
    requires before > 0.0 && additional > 0.0 && (before + additional) / before < Power(PRECISION - 1)
    ensures (before + additional) / before > 1.0
    ensures FromWhole(before, before + additional) == FromPart(before, additional) <==>
            OnGrid(FromPart(before, additional), Unit((before + additional) / before))
  {
    var q, x, growth := (before + additional) / before, additional / before, FromPart(before, additional);
    QuotientAboveOne(before, before + additional);
    PartPositive(before, additional);
    WholeIsOnePlusPart(before, additional);
    AgreeIff(before, before + additional, additional);
    hide FromWhole, FromPart, Round;
    ConsistentNearest(q, x, growth) by { assert growth == Round(x) by { PartIs(before, additional); } }
    hide Unit, Nearest, OnGrid;
    assert WholeOf(q, growth) == 1.0 + growth by { BelowPrecision(q); }
  }

  lemma PartIs(before: real, additional: real)
    requires before > 0.0 && additional > 0.0
    ensures additional / before >= 0.0 && FromPart(before, additional) == Round(additional / before)
  {
    PartPositive(before, additional);
  }

  lemma BelowPrecision(q: real)
    requires q < Power(PRECISION - 1)
    ensures q <= Power(PRECISION) + 5.0
  {
    AtMost(PRECISION - 1, PRECISION);
  }

  lemma ConsistentNearest(q: real, x: real, growth: real)
    requires x > 0.0 && q == 1.0 + x && q < Power(PRECISION - 1) && growth == Round(x)
    ensures Nearest(q, 1.0 + growth, Unit(q)) <==> OnGrid(growth, Unit(q))
  {
    hide Round, Power, Exponent, Times, NearestAt;
    var u, k := Unit(q), PRECISION - 1 - Exponent(q);
    ExponentBounds(q);
    if Exponent(q) >= PRECISION - 1 { AtMost(PRECISION - 1, Exponent(q)); }
    OneInUnits(q);
    TenEven(k);
    hide Ten;
    ExponentOrder(x, q);
    AtMost(Exponent(x) - (PRECISION - 1), Exponent(q) - (PRECISION - 1));
    assert Unit(x) <= u;
    hide Unit;
    if Nearest(q, 1.0 + growth, u) {
      var n: int :| 1.0 + growth == Times(n, u) && NearestAt(q, n, u);
      TimesMinus(n, Ten(k), u);
      assert growth == Times(n - Ten(k), u);
    }
    if OnGrid(growth, u) {
      WithinHalf(x, growth, u);
      var m: int :| growth == Times(m, u) && NearestAt(x, m, u);
      TimesMinus(m + Ten(k), Ten(k), u);
      ShiftNearest(x, m, u, Ten(k));
      assert 1.0 + growth == Times(m + Ten(k), u) && NearestAt(q, m + Ten(k), u);
    }
  }

  lemma TimesMinus(n: int, m: int, u: real)
    ensures Times(n - m, u) == Times(n, u) - Times(m, u)
  {
    DifferenceTimes(n as real, m as real, u);
  }

  lemma ShiftNearest(x: real, m: int, u: real, t: nat)
    requires NearestAt(x, m, u) && t % 2 == 0 && Times(t, u) == 1.0
    ensures NearestAt(1.0 + x, m + t, u)
  {
    TimesMinus(m + t, t, u);
    hide Times;
  }

  /** A growth of less than all: a ratio only if the rounded growth has at most 27 decimals. */
  lemma SmallGrowthAgreesIff(before: real, additional: real)
    requires 0.0 < additional < before
    ensures FromWhole(before, before + additional) == FromPart(before, additional) <==>
            OnGrid(FromPart(before, additional), Power(-(PRECISION - 1)))
  {
    var q := (before + additional) / before;
    hide Round, FromWhole, FromPart;
    BetweenOneAndTwo(before, additional);
    ConsistentAgreeIff(before, additional);
  }

  lemma BetweenOneAndTwo(before: real, additional: real)
    requires 0.0 < additional < before
    ensures var q := (before + additional) / before;
            1.0 < q < 2.0 && q < Power(PRECISION - 1) && Unit(q) == Power(-(PRECISION - 1))
  {
    var q := (before + additional) / before;
    QuotientAboveOne(before, before + additional);
    QuotientTimes(before + additional, before);
    ScaledOrder(q, 2.0, before);
    UnitOfOnes(q);
    TenPower();
    hide Power;
    AtMost(1, PRECISION - 1);
  }

  lemma UnitOfOnes(q: real)
    requires 1.0 <= q < 10.0
    ensures Unit(q) == Power(-(PRECISION - 1)) && Exponent(q) == 0
  {
    assert Power(0) == 1.0 && Power(1) == 10.0;
    hide Power;
    ExponentIs(q, 0);
  }

  /** In particular every growth below all that itself has at most 27 decimals is accepted. */
  lemma TerminatingGrowthAgrees(before: real, additional: real)
    requires 0.0 < additional < before && OnGrid(additional / before, Power(-(PRECISION - 1)))
    ensures FromWhole(before, before + additional) == FromPart(before, additional)
    ensures FromPart(before, additional) == additional / before
  {
    hide Round, FromWhole, FromPart, Power, Times, Ten;
    var x, u := additional / before, Power(-(PRECISION - 1));
    PartPositive(before, additional);
    PartIs(before, additional);
    BelowOne(before, additional);
    var n: int :| x == Times(n, u);
    UnitsInOne();
    TimesCancel(0, n, u);
    TimesZero(u);
    TimesCancel(n, Ten(PRECISION - 1), u);
    TenGrows(PRECISION - 1);
    Representable(n, -(PRECISION - 1));
    SmallGrowthAgreesIff(before, additional);
  }

  lemma TimesZero(u: real)
    ensures Times(0, u) == 0.0
  {
  }

  lemma TenGrows(k: nat)
    ensures Ten(k) < Ten(k + 1)
  {
  }

  lemma UnitsInOne()
    ensures Times(Ten(PRECISION - 1), Power(-(PRECISION - 1))) == 1.0
  {
    assert Power(0) == 1.0;
    hide Ten;
    PowerPlus(-(PRECISION - 1), PRECISION - 1);
  }

  lemma BelowOne(before: real, additional: real)
    requires 0.0 < additional < before
    ensures additional / before < 1.0
  {
    QuotientTimes(additional, before);
    ScaledOrder(additional / before, 1.0, before);
  }

  // --- When growth vanishes ---

  /** The growth from a pair is positive exactly when it exceeds half of the 27th decimal; otherwise it is zero. */
  lemma GrowthPositiveIff(before: real, after: real)
    requires 0.0 < before < after
    ensures FromWhole(before, after) >= 0.0
    ensures FromWhole(before, after) > 0.0 <==> 2.0 * (after - before) > before * Power(-(PRECISION - 1))
  {
    hide Round, Power;
    var q := after / before;
    QuotientAboveOne(before, after);
    MinusOne(q);
    AboveOneIff(q);
    assert Power(PRECISION) > 1.0 by { OneBelowPower(); }
    GapIn(before, after, Power(-(PRECISION - 1)));
  }

  lemma GapIn(before: real, after: real, u: real)
    requires 0.0 < before < after
    ensures after / before > 1.0 + u / 2.0 <==> 2.0 * (after - before) > before * u
  {
    var q := after / before;
    QuotientTimes(after, before);
    ScaledOrder(1.0 + u / 2.0, q, before);
    assert (1.0 + u / 2.0) * before == before + before * u / 2.0;
  }

  lemma AboveOneIff(q: real)
    requires q >= 1.0
    ensures Round(q) > 1.0 <==> q > 1.0 + Power(-(PRECISION - 1)) / 2.0
  {
    hide Round, Power, Times, NearestAt, Unit;
    var u := Power(-(PRECISION - 1));
    RoundAtLeastOne(q);
    UnitBelowOne();
    if q < 10.0 {
      UnitOfOnes(q);
      UnitsInOne();
      TenEven(PRECISION - 1);
      hide Ten;
      RoundIff(q, 1.0);
      NearestOne(q, u, Ten(PRECISION - 1));
    } else {
      TenPower();
      ExponentOrder(10.0, q);
      ExponentIs(10.0, 1) by { PowerStep(1); }
      AtMost(1, Exponent(q));
      RoundPositive(q);
    }
  }

  lemma UnitBelowOne()
    ensures Power(-(PRECISION - 1)) <= 1.0
  {
    LeastPower();
    hide Power;
    AtMost(-(PRECISION - 1), 0);
  }

  lemma NearestOne(q: real, u: real, ones: nat)
    requires q >= 1.0 && u > 0.0 && Times(ones, u) == 1.0 && ones % 2 == 0
    ensures Nearest(q, 1.0, u) <==> q <= 1.0 + u / 2.0
  {
    hide Times;
    if q <= 1.0 + u / 2.0 { assert NearestAt(q, ones, u); }
    if Nearest(q, 1.0, u) {
      var n: int :| 1.0 == Times(n, u) && NearestAt(q, n, u);
    }
  }

  // --- Numbers that show it ---

  const THIRD_28: nat := 3333333333333333333333333333
  const THIRD_27: nat := 333333333333333333333333333

  lemma TenLiterals()
    ensures Ten(27) == 1000000000000000000000000000 && Ten(28) == 10000000000000000000000000000
  {
    assert Ten(7) == 10000000;
    TenPlus(7, 7);
    TenPlus(14, 7);
    TenPlus(21, 7);
    assert Ten(28) == 10 * Ten(27);
  }

  /** In the last places of one third: 1 = 3 * 333...3 + 1, with 27 and with 28 digits. */
  lemma OneInLastPlaces()
    ensures 1.0 == 3.0 * Times(THIRD_27, Power(-27)) + Power(-27)
    ensures 1.0 == 3.0 * Times(THIRD_28, Power(-28)) + Power(-28)
    ensures Power(-27) == 10.0 * Power(-28)
  {
    TenLiterals();
    assert Power(0) == 1.0;
    hide Ten;
    PowerPlus(-27, 27);
    PowerPlus(-28, 28);
    PowerStep(-28);
    hide Power;
  }

  lemma OneThird()
    ensures FromPart(3.0, 1.0) == Times(THIRD_28, Power(-28))
  {
    OneInLastPlaces();
    var x := 1.0 / 3.0;
    assert Power(-1) == 0.1 && Power(0) == 1.0;
    hide Power;
    ExponentIs(x, -1);
    assert Unit(x) == Power(-28);
    PartIs(3.0, 1.0);
    hide Round, FromPart, Unit;
    assert NearestAt(x, THIRD_28, Power(-28));
    RoundIff(x, Times(THIRD_28, Power(-28)));
  }

  /** From 3 to 4 by 1: after = before + additional, and yet the quotients differ in the 28th digit. */
  lemma ThreeFourOneDiffer()
    ensures FromWhole(3.0, 4.0) != FromPart(3.0, 1.0)
  {
    OneThird();
    OneInLastPlaces();
    hide Power, FromWhole, FromPart;
    SmallGrowthAgreesIff(3.0, 1.0);
    if OnGrid(FromPart(3.0, 1.0), Power(-27)) {
      var m: int :| FromPart(3.0, 1.0) == Times(m, Power(-27));
      TenOf(m, Power(-28));
      TimesCancel(THIRD_28, 10 * m, Power(-28));
      assert false;
    }
  }

  lemma TenOf(m: int, u: real)
    ensures Times(m, 10.0 * u) == Times(10 * m, u)
  {
    assert (10 * m) as real == 10.0 * m as real;
  }

  /** From 3 to 4 by 0.999...9 with 27 nines: not before + additional, and yet the quotients agree. */
  lemma ThreeFourNinesAgree()
    ensures Power(-27) < 1.0
    ensures 4.0 != 3.0 + (1.0 - Power(-27)) && FromWhole(3.0, 4.0) == FromPart(3.0, 1.0 - Power(-27))
  {
    OneInLastPlaces();
    UnitsInOne();
    LastPlaceSmall();
    var v := Power(-27);
    var nines, growth := 1.0 - v, Times(THIRD_27, v);
    hide Power, Ten, FromWhole, FromPart, Round, Nearest;
    NinesPart(v, nines);
    UnitOfOnes(4.0 / 3.0);
    hide Unit;
    AgreeIff(3.0, 4.0, nines);
    BelowPrecision(4.0 / 3.0) by { LeastPower(); TenPower(); AtMost(1, PRECISION - 1); }
    NinesNearest(v, Ten(27));
    assert WholeOf(4.0 / 3.0, growth) == 1.0 + growth;
  }

  lemma LastPlaceSmall()
    ensures Power(-27) < 1.0
  {
    LeastPower();
    hide Power;
    PowerGrows(-27, 0);
  }

  lemma NinesPart(v: real, nines: real)
    requires v == Power(-27) && nines == 1.0 - v > 0.0 && 1.0 == 3.0 * Times(THIRD_27, v) + v
    ensures FromPart(3.0, nines) == Times(THIRD_27, v)
  {
    NinesOverThree(v, nines);
    PartIs(3.0, nines);
    TenLiterals();
    hide Power, Ten, Round, FromPart, Times;
    Representable(THIRD_27, -27);
  }

  lemma NinesNearest(v: real, ones: int)
    requires v > 0.0 && 1.0 == 3.0 * Times(THIRD_27, v) + v && Times(ones, v) == 1.0
    ensures Nearest(4.0 / 3.0, 1.0 + Times(THIRD_27, v), v)
  {
    TimesMinus(ones + THIRD_27, ones, v);
    hide Times;
    assert NearestAt(4.0 / 3.0, ones + THIRD_27, v);
  }

  lemma NinesOverThree(v: real, nines: real)
    requires nines == 1.0 - v && 1.0 == 3.0 * Times(THIRD_27, v) + v
    ensures nines / 3.0 == Times(THIRD_27, v)
  {
  }

  /** From 10^28 to 10^28 + 1: an expansion whose growth is zero under the context. */
  lemma VanishingGrowth()
    ensures Power(28) > 0.0 && FromWhole(Power(28), Power(28) + 1.0) == 0.0
  {
    hide Power, FromWhole, Ten;
    GrowthPositiveIff(Power(28), Power(28) + 1.0);
    TenthPower();
  }

  lemma TenthPower()
    ensures Power(28) * Power(-27) == 10.0
  {
    TenPower();
    hide Power, Ten;
    TenIsPower(28);
    PowerPlus(-27, 28);
  }
}
