/** Piecewise-linear scoring curves: the validated policy and the interpolation loop. */
module Curves {
  import opened Reals

  datatype Breakpoint = Breakpoint(raw: real, score: real)

  type Curve = seq<Breakpoint>

  /** What the curve's validators accept. */
  predicate Valid(curve: Curve) {
    && |curve| >= 2
    && (forall i | 0 <= i < |curve| :: 0.0 <= curve[i].score <= 100.0)
    && (forall i | 0 <= i < |curve| - 1 :: Ascends(curve, i))
  }

  predicate Ascends(curve: Curve, i: nat)
    requires i + 1 < |curve|
  {
    curve[i].raw < curve[i + 1].raw && curve[i].score <= curve[i + 1].score
  }

  function Interpolate(curve: Curve, i: nat, x: real): real
    requires Valid(curve) && i + 1 < |curve|
  {
    assert Ascends(curve, i);
    curve[i].score +
    (x - curve[i].raw) / (curve[i + 1].raw - curve[i].raw) * (curve[i + 1].score - curve[i].score)
  }

  /** The first segment at or after `i` whose right end reaches `x`. */
  function SegmentFrom(curve: Curve, x: real, i: nat): (k: nat)
    requires Valid(curve) && i + 1 < |curve|
    requires curve[i].raw <= x < curve[|curve| - 1].raw
    ensures i <= k && k + 1 < |curve| && curve[k].raw <= x <= curve[k + 1].raw
    decreases |curve| - i
  {
    if x <= curve[i + 1].raw then i else SegmentFrom(curve, x, i + 1)
  }

  function Score(x: real, curve: Curve): real
    requires Valid(curve)
  {
    if x <= curve[0].raw then curve[0].score
    else if x >= curve[|curve| - 1].raw then curve[|curve| - 1].score
    else Interpolate(curve, SegmentFrom(curve, x, 0), x)
  }

  /** The scan always finds a segment: the trailing `raise` of the original is dead. */
  method ScorePiecewiseLinear(x: real, curve: Curve) returns (score: real)
    requires Valid(curve)
    ensures score == Score(x, curve)
  {
    if x <= curve[0].raw {
      return curve[0].score;
    }
    if x >= curve[|curve| - 1].raw {
      return curve[|curve| - 1].score;
    }
    for i := 0 to |curve| - 1
      invariant curve[i].raw <= x
      invariant SegmentFrom(curve, x, 0) == if i + 1 < |curve| then SegmentFrom(curve, x, i) else 0
    {
      if x <= curve[i + 1].raw {
        return Interpolate(curve, i, x);
      }
    }
    assert false;
  }

  lemma {:induction false} Increasing(curve: Curve, i: nat, j: nat)
    requires Valid(curve) && i <= j < |curve|
    ensures curve[i].score <= curve[j].score
    ensures i < j ==> curve[i].raw < curve[j].raw
    decreases j - i
  {
    if i < j {
      assert Ascends(curve, i);
      Increasing(curve, i + 1, j);
    }
  }

  /** Interpolation stays between the two scores of its segment. */
  lemma InterpolateBounds(curve: Curve, i: nat, x: real)
    requires Valid(curve) && i + 1 < |curve|
    requires curve[i].raw <= x <= curve[i + 1].raw
    ensures curve[i].score <= Interpolate(curve, i, x) <= curve[i + 1].score
    ensures x == curve[i].raw ==> Interpolate(curve, i, x) == curve[i].score
    ensures x == curve[i + 1].raw ==> Interpolate(curve, i, x) == curve[i + 1].score
  {
    assert Ascends(curve, i);
    var width, rise := curve[i + 1].raw - curve[i].raw, curve[i + 1].score - curve[i].score;
    var t := (x - curve[i].raw) / width;
    FractionBounds(x - curve[i].raw, width);
    FractionOf(t, rise);
    assert Interpolate(curve, i, x) == curve[i].score + t * rise;
  }

  lemma InterpolateMonotone(curve: Curve, i: nat, x: real, y: real)
    requires Valid(curve) && i + 1 < |curve|
    requires x <= y
    ensures Interpolate(curve, i, x) <= Interpolate(curve, i, y)
  {
    assert Ascends(curve, i);
    var width, rise := curve[i + 1].raw - curve[i].raw, curve[i + 1].score - curve[i].score;
    var s, t := (x - curve[i].raw) / width, (y - curve[i].raw) / width;
    QuotientOrder(x - curve[i].raw, y - curve[i].raw, width);
    ProductMonotone(s, t, rise);
  }

  /** Any segment that contains `x` gives the curve's value, so the pieces join up. */
  lemma AnySegmentAgrees(curve: Curve, i: nat, x: real)
    requires Valid(curve) && i + 1 < |curve|
    requires curve[i].raw <= x <= curve[i + 1].raw
    ensures Score(x, curve) == Interpolate(curve, i, x)
  {
    var last := |curve| - 1;
    InterpolateBounds(curve, i, x);
    if x <= curve[0].raw {
      if i > 0 { Increasing(curve, 0, i); }
    } else if x >= curve[last].raw {
      if i + 1 < last { Increasing(curve, i + 1, last); }
    } else {
      var k := SegmentFrom(curve, x, 0);
      InterpolateBounds(curve, k, x);
      if k + 1 < i {
        Increasing(curve, k + 1, i);
      } else if i + 1 < k {
        Increasing(curve, i + 1, k);
      }
    }
  }

  /** Every score lies between the first and the last score of the curve. */
  lemma ScoreBounds(x: real, curve: Curve)
    requires Valid(curve)
    ensures curve[0].score <= Score(x, curve) <= curve[|curve| - 1].score
    ensures 0.0 <= Score(x, curve) <= 100.0
  {
    var last := |curve| - 1;
    Increasing(curve, 0, last);
    if curve[0].raw < x < curve[last].raw {
      var k := SegmentFrom(curve, x, 0);
      InterpolateBounds(curve, k, x);
      Increasing(curve, 0, k);
      Increasing(curve, k + 1, last);
    }
  }

  lemma ScoreAtBreakpoint(curve: Curve, i: nat)
    requires Valid(curve) && i < |curve|
    ensures Score(curve[i].raw, curve) == curve[i].score
  {
    var k := if i + 1 < |curve| then i else i - 1;
    assert Ascends(curve, k);
    AnySegmentAgrees(curve, k, curve[i].raw);
    InterpolateBounds(curve, k, curve[i].raw);
  }

  /** A larger input never scores lower, across segments and across both clamps. */
  lemma ScoreMonotone(x: real, y: real, curve: Curve)
    requires Valid(curve) && x <= y
    ensures Score(x, curve) <= Score(y, curve)
  {
    var last := |curve| - 1;
    ScoreBounds(x, curve);
    ScoreBounds(y, curve);
    if curve[0].raw < x && y < curve[last].raw {
      var i, j := SegmentFrom(curve, x, 0), SegmentFrom(curve, y, 0);
      InterpolateBounds(curve, i, x);
      InterpolateBounds(curve, j, y);
      if i == j {
        InterpolateMonotone(curve, i, x, y);
      } else if i < j {
        Increasing(curve, i + 1, j);
      } else {
        Increasing(curve, j + 1, i);
      }
    }
  }

  // --- The graph of a curve ---

  /** On the straight line between the breakpoints around `x`, or on the flat ends. */
  ghost predicate OnCurve(curve: Curve, x: real, y: real)
    requires |curve| >= 2
  {
    || (x <= curve[0].raw && y == curve[0].score)
    || (x >= curve[|curve| - 1].raw && y == curve[|curve| - 1].score)
    || exists i | 0 <= i < |curve| - 1 :: OnSegment(curve[i], curve[i + 1], x, y)
  }

  ghost predicate OnSegment(a: Breakpoint, b: Breakpoint, x: real, y: real) {
    && a.raw <= x <= b.raw
    && (y - a.score) * (b.raw - a.raw) == (x - a.raw) * (b.score - a.score)
  }

  lemma RatioTimes(part: real, width: real, rise: real)
    requires width > 0.0
    ensures part / width * rise * width == part * rise
  {
    var t := part / width;
    assert t * width == part;
    assert t * rise * width == t * width * rise;
  }

  lemma InterpolatedOnSegment(curve: Curve, i: nat, x: real, y: real)
    requires Valid(curve) && i + 1 < |curve| && curve[i].raw <= x <= curve[i + 1].raw
    ensures OnSegment(curve[i], curve[i + 1], x, y) <==> y == Interpolate(curve, i, x)
  {
    assert Ascends(curve, i);
    OnLine(curve[i].raw, curve[i].score, curve[i + 1].raw - curve[i].raw, curve[i + 1].score - curve[i].score, x, y);
  }

  lemma OnLine(raw: real, score: real, width: real, rise: real, x: real, y: real)
    requires width > 0.0
    ensures (y - score) * width == (x - raw) * rise <==> y == score + (x - raw) / width * rise
  {
    var z := (x - raw) / width * rise;
    RatioTimes(x - raw, width, rise);
    assert z * width == (x - raw) * rise;
    Cancel(y - score, z, width);
  }

  /** The score of an input is its height on the curve, and nothing else is. */
  lemma ScoreOnCurve(curve: Curve, x: real, y: real)
    requires Valid(curve)
    ensures OnCurve(curve, x, y) <==> y == Score(x, curve)
  {
    var last := |curve| - 1;
    Increasing(curve, 0, last);
    assert |curve| >= 2;
    hide OnSegment, Interpolate, Valid;
    if x <= curve[0].raw {
      assert Score(x, curve) == curve[0].score;
    } else if x >= curve[last].raw {
      assert Score(x, curve) == curve[last].score;
    } else {
      var k := SegmentFrom(curve, x, 0);
      InterpolatedOnSegment(curve, k, x, Score(x, curve));
      assert OnSegment(curve[k], curve[k + 1], x, Score(x, curve));
    }
    assert OnCurve(curve, x, Score(x, curve));
    if OnCurve(curve, x, y) && (x > curve[0].raw || y != curve[0].score) && (x < curve[last].raw || y != curve[last].score) {
      var i :| 0 <= i < |curve| - 1 && OnSegment(curve[i], curve[i + 1], x, y);
      SegmentContains(curve[i], curve[i + 1], x, y);
      InterpolatedOnSegment(curve, i, x, y);
      AnySegmentAgrees(curve, i, x);
    }
  }

  lemma SegmentContains(a: Breakpoint, b: Breakpoint, x: real, y: real)
    requires OnSegment(a, b, x, y)
    ensures a.raw <= x <= b.raw
  {
  }
}
