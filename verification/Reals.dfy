/** The few facts about products and quotients of reals that the proofs use. */
module Reals {

  lemma ProductNonNegative(a: real, b: real)
    requires a >= 0.0 && b >= 0.0
    ensures a * b >= 0.0
  {
  }

  lemma ProductPositive(a: real, b: real)
    requires a > 0.0 && b > 0.0
    ensures a * b > 0.0
  {
  }

  lemma ProductMonotone(a: real, b: real, w: real)
    requires a <= b && w >= 0.0
    ensures a * w <= b * w && w * a <= w * b
  {
    ProductNonNegative(b - a, w);
  }

  lemma Cancel(a: real, b: real, w: real)
    requires w > 0.0
    ensures a * w <= b * w ==> a <= b
    ensures a * w == b * w ==> a == b
  {
    if a > b { assert (a - b) * w > 0.0; }
    if a < b { assert (b - a) * w > 0.0; }
  }

  lemma QuotientOrder(a: real, b: real, w: real)
    requires w > 0.0 && a <= b
    ensures a / w <= b / w
  {
    var x, y := a / w, b / w;
    assert x * w == a && y * w == b;
    Cancel(x, y, w);
  }

  lemma QuotientTimes(a: real, w: real)
    requires w > 0.0
    ensures a / w * w == a
  {
  }

  /** A part of a positive whole is a fraction between zero and one. */
  lemma FractionBounds(a: real, w: real)
    requires w > 0.0 && 0.0 <= a <= w
    ensures 0.0 <= a / w <= 1.0
    ensures a == 0.0 ==> a / w == 0.0
    ensures a == w ==> a / w == 1.0
  {
    var t := a / w;
    QuotientTimes(a, w);
    Cancel(0.0, t, w);
    Cancel(t, 1.0, w);
    Cancel(t, 0.0, w);
  }

  lemma FractionOf(t: real, r: real)
    requires 0.0 <= t <= 1.0 && r >= 0.0
    ensures 0.0 <= t * r <= r
  {
    ProductNonNegative(t, r);
    ProductMonotone(t, 1.0, r);
  }

  lemma ScaledOrder(a: real, b: real, w: real)
    requires w > 0.0
    ensures (a < b <==> a * w < b * w) && (a == b <==> a * w == b * w)
  {
    Cancel(a, b, w);
    Cancel(b, a, w);
    if a < b { ProductPositive(b - a, w); }
  }

  lemma DifferenceTimes(a: real, b: real, w: real)
    ensures (a - b) * w == a * w - b * w
  {
  }
}
