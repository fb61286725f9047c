/** Rounding an exact amount down to a token's number of decimal places, as
    `Decimal.quantize(Decimal('1e-d'), rounding=ROUND_DOWN)` does: toward
    zero, to a whole multiple of 10^-d. */
module Decimals {

  function Pow10(n: nat): (p: nat)
    ensures p >= 1
    ensures n > 0 ==> p >= 10
  {
    if n == 0 then 1 else 10 * Pow10(n - 1)
  }

  /** 10^d as a real: the number of steps of size 10^-d in one whole unit. */
  function Scale(d: nat): (s: real)
    ensures s >= 1.0
  {
    Pow10(d) as real
  }

  predicate IsWhole(z: real) {
    z.Floor as real == z
  }

  /** `w` is `z` rounded toward zero to a whole number: on the same side of
      zero, no further from zero, and less than one closer to zero. */
  ghost predicate RoundsTowardZero(z: real, w: real) {
    && IsWhole(w)
    && (if z >= 0.0 then 0.0 <= w <= z < w + 1.0 else w - 1.0 < z <= w <= 0.0)
  }

  /** `y` is `x` rounded toward zero to `d` decimal places. */
  ghost predicate IsTruncation(x: real, d: nat, y: real) {
    IsTruncationAt(x, Scale(d), y)
  }

  /** `y` is `x` rounded toward zero to a multiple of 1/s: counted in steps
      of 1/s, `y` is `x` rounded toward zero to a whole number of steps. */
  ghost predicate IsTruncationAt(x: real, s: real, y: real) {
    RoundsTowardZero(x * s, y * s)
  }

  function Truncate(x: real, d: nat): (y: real)
    ensures IsTruncation(x, d, y)
  {
    TruncateAtCorrect(x, Scale(d));
    TruncateAt(x, Scale(d))
  }

  function TruncateAt(x: real, s: real): real
    requires s >= 1.0
  {
    if x >= 0.0 then (x * s).Floor as real / s
    else -((-x * s).Floor as real / s)
  }

  lemma TruncateAtCorrect(x: real, s: real)
    requires s >= 1.0
    ensures IsTruncationAt(x, s, TruncateAt(x, s))
  {
    if x >= 0.0 {
      TruncateNonNegative(x, s);
    } else {
      TruncateNegative(x, s);
    }
  }

  lemma TruncateNonNegative(x: real, s: real)
    requires x >= 0.0 && s >= 1.0
    ensures IsTruncationAt(x, s, (x * s).Floor as real / s)
  {
    var n := (x * s).Floor;
    TruncateStep(x, s, n);
    StepsGiveTruncation(x, s, n as real / s, n as real);
  }

  lemma TruncateNegative(x: real, s: real)
    requires x < 0.0 && s >= 1.0
    ensures IsTruncationAt(x, s, -((-x * s).Floor as real / s))
  {
    var n := (-x * s).Floor;
    TruncateStep(-x, s, n);
    var a := n as real / s;
    NegateScaled(x, a, s);
    PositiveScaled(-x, s);
    RoundNegated(-x * s, n as real);
    StepsGiveTruncation(x, s, -a, -n as real);
  }

  /** Counting `y` in steps of 1/s gives `w`, the rounded count for `x`. */
  lemma StepsGiveTruncation(x: real, s: real, y: real, w: real)
    requires RoundsTowardZero(x * s, w) && y * s == w
    ensures IsTruncationAt(x, s, y)
  {
  }

  /** For `z >= 0`, `n` = floor(z * s) steps of 1/s round `z` down. */
  lemma TruncateStep(z: real, s: real, n: int)
    requires z >= 0.0 && s >= 1.0 && n == (z * s).Floor
    ensures (n as real / s) * s == n as real
    ensures IsWhole(n as real)
    ensures 0.0 <= n as real <= z * s < n as real + 1.0
  {
    assert z * s >= 0.0;
  }

  lemma NegateScaled(x: real, y: real, s: real)
    ensures -y * s == -(y * s) && -x * s == -(x * s)
  {
  }

  lemma PositiveScaled(z: real, s: real)
    requires z > 0.0 && s >= 1.0
    ensures z * s > 0.0
  {
  }

  lemma RoundNegated(z: real, w: real)
    requires z > 0.0 && RoundsTowardZero(z, w)
    ensures RoundsTowardZero(-z, -w)
  {
    var k := w.Floor;
    assert (-k) as real == -w;
    assert (-w).Floor == -k;
  }

  lemma CancelScale(a: real, b: real, s: real)
    requires s > 0.0
    ensures a * s <= b * s ==> a <= b
    ensures a * s == b * s ==> a == b
  {
    if a * s <= b * s {
      assert (b - a) * s >= 0.0;
    }
  }

  /** Measured in whole units, the rounded amount is also no further from
      zero than `x` and on the same side of zero. */
  lemma TruncateBounds(x: real, d: nat)
    ensures x >= 0.0 ==> 0.0 <= Truncate(x, d) <= x
    ensures x < 0.0 ==> x <= Truncate(x, d) <= 0.0
  {
    TruncationAtBounds(x, Scale(d), Truncate(x, d));
  }

  lemma TruncationAtBounds(x: real, s: real, y: real)
    requires s >= 1.0 && IsTruncationAt(x, s, y)
    ensures x >= 0.0 ==> 0.0 <= y <= x
    ensures x < 0.0 ==> x <= y <= 0.0
  {
    CancelScale(y, x, s);
    CancelScale(x, y, s);
    CancelScale(0.0, y, s);
    CancelScale(y, 0.0, s);
  }

  /** Rounding toward zero has exactly one answer. */
  lemma TruncationUnique(x: real, d: nat, y1: real, y2: real)
    requires IsTruncation(x, d, y1) && IsTruncation(x, d, y2)
    ensures y1 == y2
  {
    TruncationAtUnique(x, Scale(d), y1, y2);
  }

  lemma TruncationAtUnique(x: real, s: real, y1: real, y2: real)
    requires s >= 1.0 && IsTruncationAt(x, s, y1) && IsTruncationAt(x, s, y2)
    ensures y1 == y2
  {
    WholeRoundingUnique(x * s, y1 * s, y2 * s);
    CancelScale(y1, y2, s);
  }

  /** Two whole numbers that both round `z` toward zero are equal. */
  lemma WholeRoundingUnique(z: real, w1: real, w2: real)
    requires RoundsTowardZero(z, w1) && RoundsTowardZero(z, w2)
    ensures w1 == w2
  {
    var n1, n2 := w1.Floor, w2.Floor;
    assert n1 as real == w1 && n2 as real == w2;
    assert -1.0 < w1 - w2 < 1.0;
    assert n1 - n2 == 0;
  }

  /** An amount that already has at most `d` decimals is left as it is. */
  lemma TruncateIdempotent(x: real, d: nat)
    ensures Truncate(Truncate(x, d), d) == Truncate(x, d)
  {
    var y := Truncate(x, d);
    TruncateBounds(x, d);
    assert IsTruncation(y, d, y);
    TruncationUnique(y, d, y, Truncate(y, d));
  }

  lemma FloorMonotone(a: real, b: real)
    requires a <= b
    ensures a.Floor <= b.Floor
  {
  }

  /** Rounding toward zero never reverses the order of two amounts. */
  lemma TruncateMonotone(x1: real, x2: real, d: nat)
    requires x1 <= x2
    ensures Truncate(x1, d) <= Truncate(x2, d)
  {
    TruncateAtMonotone(x1, x2, Scale(d));
  }

  lemma TruncateAtMonotone(x1: real, x2: real, s: real)
    requires x1 <= x2 && s >= 1.0
    ensures TruncateAt(x1, s) <= TruncateAt(x2, s)
  {
    if x1 >= 0.0 {
      MonotoneBothNonNegative(x1, x2, s);
    } else if x2 < 0.0 {
      MonotoneBothNegative(x1, x2, s);
    } else {
      MonotoneAcrossZero(x1, x2, s);
    }
  }

  lemma MonotoneBothNonNegative(x1: real, x2: real, s: real)
    requires 0.0 <= x1 <= x2 && s >= 1.0
    ensures TruncateAt(x1, s) <= TruncateAt(x2, s)
  {
    ScaleMonotone(x1, x2, s);
    FloorMonotone(x1 * s, x2 * s);
    DivMonotone((x1 * s).Floor as real, (x2 * s).Floor as real, s);
  }

  lemma MonotoneBothNegative(x1: real, x2: real, s: real)
    requires x1 <= x2 < 0.0 && s >= 1.0
    ensures TruncateAt(x1, s) <= TruncateAt(x2, s)
  {
    ScaleMonotone(-x2, -x1, s);
    FloorMonotone(-x2 * s, -x1 * s);
    DivMonotone((-x2 * s).Floor as real, (-x1 * s).Floor as real, s);
  }

  lemma MonotoneAcrossZero(x1: real, x2: real, s: real)
    requires x1 < 0.0 <= x2 && s >= 1.0
    ensures TruncateAt(x1, s) <= TruncateAt(x2, s)
  {
    ScaleMonotone(0.0, -x1, s);
    ScaleMonotone(0.0, x2, s);
    DivMonotone(0.0, (-x1 * s).Floor as real, s);
    DivMonotone(0.0, (x2 * s).Floor as real, s);
  }

  lemma DivMonotone(a: real, b: real, s: real)
    requires a <= b && s > 0.0
    ensures a / s <= b / s
  {
    assert b / s - a / s == (b - a) / s;
  }

  lemma ScaleMonotone(a: real, b: real, s: real)
    requires a <= b && s >= 0.0
    ensures a * s <= b * s
  {
    assert (b - a) * s >= 0.0;
  }
}
