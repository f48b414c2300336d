/**
 * The discount calculator (DiscountManager::calculateDiscountAmount): what
 * one discount takes off the running amount before the engine's own clamps
 * and rounding.
 */
module Calculator {
  import opened Wrappers
  import opened DiscountModel

  function Min(a: real, b: real): real { if a <= b then a else b }
  function Max(a: real, b: real): real { if a >= b then a else b }

  /** A nullable amount that PHP reads as true: present and not zero. */
  predicate Truthy(x: Option<real>)
  {
    x.Some? && x.value != 0.0
  }

  /** The global cap is in force: max_percentage is set and positive. */
  predicate CapOn(maxPercentage: Option<real>)
  {
    maxPercentage.Some? && maxPercentage.value > 0.0
  }

  /** The most the global cap lets the stack take off `original`. */
  function CapAmount(original: real, maxPercentage: Option<real>): real
    requires CapOn(maxPercentage)
  {
    original * (maxPercentage.value / 100.0)
  }

  /** What the global cap still allows once `totalApplied` has been taken off `original`. */
  function RemainingCap(original: real, totalApplied: real, maxPercentage: Option<real>): real
    requires CapOn(maxPercentage)
  {
    Max(0.0, CapAmount(original, maxPercentage) - totalApplied)
  }

  /**
   * calculateDiscountAmount. A percentage discount takes the least of its
   * share of the current amount, what the global cap still allows (when the
   * cap is on) and its own maximum (when that is non-zero); a fixed discount
   * takes its value but never more than the current amount; any other type is
   * an UnsupportedType error.
   */
  function CalculateDiscountAmount(
    d: Discount, current: real, original: real, totalApplied: real, maxPercentage: Option<real>
  ): (r: Result<real>)
    ensures r.Err? <==> !IsPercentage(d) && !IsFixed(d)
    ensures r.Err? ==> r.error == UnsupportedType
    ensures IsFixed(d) ==> r.Ok? && r.value <= d.value && r.value <= current
    ensures IsFixed(d) ==> r.value == d.value || r.value == current
    ensures IsPercentage(d) ==> r.Ok? && r.value <= current * (d.value / 100.0)
    ensures IsPercentage(d) && CapOn(maxPercentage) ==>
      r.value <= RemainingCap(original, totalApplied, maxPercentage)
    ensures IsPercentage(d) && Truthy(d.maxDiscountAmount) ==> r.value <= d.maxDiscountAmount.value
    ensures IsPercentage(d) ==>
      || r.value == current * (d.value / 100.0)
      || (CapOn(maxPercentage) && r.value == RemainingCap(original, totalApplied, maxPercentage))
      || (Truthy(d.maxDiscountAmount) && r.value == d.maxDiscountAmount.value)
  {
    if IsPercentage(d) then
      var calculated := current * (d.value / 100.0);
      var capped := if CapOn(maxPercentage)
        then Min(calculated, RemainingCap(original, totalApplied, maxPercentage))
        else calculated;
      Ok(if Truthy(d.maxDiscountAmount) then Min(capped, d.maxDiscountAmount.value) else capped)
    else if IsFixed(d) then
      Ok(Min(d.value, current))
    else
      Err(UnsupportedType)
  }

  /**
   * A percentage step under the global cap never carries the running total
   * past the cap (before rounding): the total after it is at most the larger
   * of the total before it and the cap.
   */
  lemma PercentageStepWithinCap(
    d: Discount, current: real, original: real, totalApplied: real, maxPercentage: Option<real>)
    requires IsPercentage(d) && CapOn(maxPercentage)
    ensures var r := CalculateDiscountAmount(d, current, original, totalApplied, maxPercentage);
      r.Ok? && totalApplied + r.value <= Max(totalApplied, CapAmount(original, maxPercentage))
  {
  }

  /** A fixed step ignores the global cap: 80 off a fixed discount on 100 under a 50% cap. */
  lemma FixedStepIgnoresCap()
    ensures var d := Discount(1, "FLAT80", "fixed", 80.0, None, None, None, None, true, None, 0, true);
      CalculateDiscountAmount(d, 100.0, 100.0, 0.0, Some(50.0)) == Ok(80.0)
  {
  }
}
