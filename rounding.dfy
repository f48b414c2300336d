/**
 * The amount rounder (DiscountManager::roundAmount): an amount is scaled by
 * 10^precision, rounded to a whole number of units with the configured mode,
 * and scaled back. Amounts are exact reals, so the model has none of the
 * representation error of IEEE doubles.
 *
 * The arithmetic facts are proved once for an arbitrary positive scale `s`
 * (the ...At lemmas) and then used at s = Scale(precision).
 */
module Rounding {

  /** caps.rounding: 'floor', 'ceil', and every other value rounds half away from zero. */
  datatype RoundingMode = Floor | Ceil | HalfUp

  /** 10 ** precision. */
  function Scale(precision: nat): (s: real)
    ensures s >= 1.0
  {
    if precision == 0 then 1.0 else 10.0 * Scale(precision - 1)
  }

  /** The whole number a scaled amount `y` rounds to under `mode`. */
  function Units(y: real, mode: RoundingMode): int
  {
    match mode
    case Floor => y.Floor
    case Ceil => -((-y).Floor)
    case HalfUp => if y >= 0.0 then (y + 0.5).Floor else -((-y + 0.5).Floor)
  }

  /** `x` is a whole number of 1/s units. */
  predicate WholeAt(x: real, s: real)
  {
    (x * s).Floor as real == x * s
  }

  /** `x` is a whole number of 10^-precision units: rounding has nothing left to do. */
  predicate OnGrid(x: real, precision: nat)
  {
    WholeAt(x, Scale(precision))
  }

  /** roundAmount: `amount` rounded to `precision` decimal places. */
  function Round(amount: real, precision: nat, mode: RoundingMode): (r: real)
    ensures mode == Floor ==> r <= amount
    ensures mode == Ceil ==> r >= amount
    ensures amount - 1.0 / Scale(precision) < r < amount + 1.0 / Scale(precision)
    ensures mode == HalfUp && amount >= 0.0 ==>
      amount - 0.5 / Scale(precision) < r <= amount + 0.5 / Scale(precision)
    ensures mode == HalfUp && amount < 0.0 ==>
      amount - 0.5 / Scale(precision) <= r < amount + 0.5 / Scale(precision)
    ensures OnGrid(r, precision)
  {
    RoundAtBounds(amount, Scale(precision), mode);
    RoundAtOnGrid(amount, Scale(precision), mode);
    RoundAt(amount, Scale(precision), mode)
  }

  /** Rounding to a whole number of 1/s units. */
  function RoundAt(x: real, s: real, mode: RoundingMode): real
    requires s > 0.0
  {
    Units(x * s, mode) as real / s
  }

  // ---------------------------------------------------------------------------
  // Whole-unit rounding

  lemma UnitsClose(y: real, mode: RoundingMode)
    ensures y - 1.0 < Units(y, mode) as real < y + 1.0
    ensures mode == Floor ==> Units(y, mode) as real <= y
    ensures mode == Ceil ==> Units(y, mode) as real >= y
    ensures mode == HalfUp && y >= 0.0 ==> y - 0.5 < Units(y, mode) as real <= y + 0.5
    ensures mode == HalfUp && y < 0.0 ==> y - 0.5 <= Units(y, mode) as real < y + 0.5
  {
  }

  lemma UnitsOfWhole(y: real, mode: RoundingMode)
    requires y.Floor as real == y
    ensures Units(y, mode) == y.Floor
  {
    var k := y.Floor;
    if mode == HalfUp {
      if k >= 0 {
        assert (k as real + 0.5).Floor == k;
      } else {
        assert (-(k as real) + 0.5).Floor == -k;
      }
    }
  }

  lemma UnitsMonotone(y: real, z: real, mode: RoundingMode)
    requires y <= z
    ensures Units(y, mode) <= Units(z, mode)
  {
    if mode == HalfUp && y < 0.0 && z >= 0.0 {
      assert -((-y + 0.5).Floor) <= 0;
    }
  }

  // ---------------------------------------------------------------------------
  // The same facts at an arbitrary positive scale

  lemma RoundAtBounds(x: real, s: real, mode: RoundingMode)
    requires s > 0.0
    ensures var r := RoundAt(x, s, mode);
      && (mode == Floor ==> r <= x)
      && (mode == Ceil ==> r >= x)
      && x - 1.0 / s < r < x + 1.0 / s
      && (mode == HalfUp && x >= 0.0 ==> x - 0.5 / s < r <= x + 0.5 / s)
      && (mode == HalfUp && x < 0.0 ==> x - 0.5 / s <= r < x + 0.5 / s)
  {
    var y := x * s;
    var k := Units(y, mode) as real;
    UnitsClose(y, mode);
    assert RoundAt(x, s, mode) == k / s;
    ScaledBack(x, s, k, 1.0);
    ScaledBack(x, s, k, 0.5);
    ScaledBack(x, s, k, 0.0);
    if mode == HalfUp {
      assert x >= 0.0 <==> y >= 0.0 by {
        assert x == y / s;
        if x >= 0.0 { MultiplyMonotone(0.0, x, s); } else { DivideStrict(y, 0.0, s); }
      }
    }
  }

  /** A rounded amount is a whole number of 1/s units. */
  lemma RoundAtOnGrid(x: real, s: real, mode: RoundingMode)
    requires s > 0.0
    ensures WholeAt(RoundAt(x, s, mode), s)
  {
    var k := Units(x * s, mode);
    var r := RoundAt(x, s, mode);
    assert r == k as real / s;
    assert r * s == k as real;
    WholeAtFloor(r * s, k);
    assert WholeAt(r, s);
  }

  /** Bounds on a whole number of units k around x * s carry over to k / s around x. */
  lemma ScaledBack(x: real, s: real, k: real, d: real)
    requires s > 0.0
    ensures k < x * s + d ==> k / s < x + d / s
    ensures k <= x * s + d ==> k / s <= x + d / s
    ensures k > x * s - d ==> k / s > x - d / s
    ensures k >= x * s - d ==> k / s >= x - d / s
  {
    assert (x * s + d) / s == x + d / s;
    assert (x * s - d) / s == x - d / s;
    if k < x * s + d { DivideStrict(k, x * s + d, s); }
    if k <= x * s + d { DivideMonotone(k, x * s + d, s); }
    if k > x * s - d { DivideStrict(x * s - d, k, s); }
    if k >= x * s - d { DivideMonotone(x * s - d, k, s); }
  }

  lemma RoundAtWhole(x: real, s: real, mode: RoundingMode)
    requires s > 0.0 && WholeAt(x, s)
    ensures RoundAt(x, s, mode) == x
  {
    UnitsOfWhole(x * s, mode);
    assert (x * s) / s == x;
  }

  lemma RoundAtMonotone(x: real, y: real, s: real, mode: RoundingMode)
    requires s > 0.0 && x <= y
    ensures RoundAt(x, s, mode) <= RoundAt(y, s, mode)
  {
    MultiplyMonotone(x, y, s);
    UnitsMonotone(x * s, y * s, mode);
    DivideMonotone(Units(x * s, mode) as real, Units(y * s, mode) as real, s);
  }

  lemma MultiplyMonotone(a: real, b: real, s: real)
    requires s > 0.0 && a <= b
    ensures a * s <= b * s
  {
    assert b * s - a * s == (b - a) * s;
  }

  lemma DivideMonotone(a: real, b: real, s: real)
    requires s > 0.0 && a <= b
    ensures a / s <= b / s
  {
    assert b / s - a / s == (b - a) / s;
  }

  lemma DivideStrict(a: real, b: real, s: real)
    requires s > 0.0 && a < b
    ensures a / s < b / s
  {
    assert b / s - a / s == (b - a) / s;
  }

  lemma WholeAtFloor(y: real, k: int)
    requires y == k as real
    ensures y.Floor as real == y
  {
  }

  lemma WholeAtDifference(a: real, b: real, s: real)
    requires WholeAt(a, s) && WholeAt(b, s)
    ensures WholeAt(a - b, s)
  {
    assert (a - b) * s == a * s - b * s;
    WholeAtFloor((a - b) * s, (a * s).Floor - (b * s).Floor);
  }

  // ---------------------------------------------------------------------------
  // Properties of Round

  /** An amount already on the grid is left exactly as it is, whatever the mode. */
  lemma RoundOnGrid(x: real, precision: nat, mode: RoundingMode)
    requires OnGrid(x, precision)
    ensures Round(x, precision, mode) == x
  {
    RoundAtWhole(x, Scale(precision), mode);
  }

  /** Rounding twice at one precision and mode is rounding once. */
  lemma RoundIdempotent(x: real, precision: nat, mode: RoundingMode)
    ensures Round(Round(x, precision, mode), precision, mode) == Round(x, precision, mode)
  {
    RoundOnGrid(Round(x, precision, mode), precision, mode);
  }

  /** Rounding never reverses the order of two amounts. */
  lemma RoundMonotone(x: real, y: real, precision: nat, mode: RoundingMode)
    requires x <= y
    ensures Round(x, precision, mode) <= Round(y, precision, mode)
  {
    RoundAtMonotone(x, y, Scale(precision), mode);
  }

  /** Grid amounts are closed under subtraction: a difference of rounded amounts needs no rounding. */
  lemma GridDifference(a: real, b: real, precision: nat)
    requires OnGrid(a, precision) && OnGrid(b, precision)
    ensures OnGrid(a - b, precision)
  {
    WholeAtDifference(a, b, Scale(precision));
  }
}
