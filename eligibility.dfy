/**
 * The eligibility evaluator (DiscountManager::isCurrentlyActive and
 * ::meetsOrderValue) and the test every loaded assignment must pass before
 * it is listed or applied.
 */
module Eligibility {
  import opened Wrappers
  import opened DiscountModel
  import opened UserDiscountModel

  /**
   * isCurrentlyActive at instant `now`: the administrative switch is on, the
   * start (if any) is not in the future and the expiry (if any) not in the past.
   */
  predicate IsCurrentlyActive(d: Discount, now: int)
  {
    if !d.isActive then false
    else if d.startsAt.Some? && d.startsAt.value > now then false
    else if d.expiresAt.Some? && d.expiresAt.value < now then false
    else true
  }

  /**
   * meetsOrderValue: a missing minimum, and a minimum of 0 (PHP reads it as
   * false), impose nothing; otherwise the amount must reach the minimum.
   */
  predicate MeetsOrderValue(d: Discount, amount: real)
  {
    if d.minOrderValue.None? || d.minOrderValue.value == 0.0 then true
    else amount >= d.minOrderValue.value
  }

  /** An assignment with its discount relation as loaded: None when the discount row is missing. */
  datatype Candidate = Candidate(assignment: UserDiscount, discount: Option<Discount>)

  /** No two candidates carry the same assignment (user_discounts key). */
  ghost predicate DistinctIds(s: seq<Candidate>)
  {
    forall i, j :: 0 <= i < j < |s| ==> s[i].assignment.id != s[j].assignment.id
  }

  /** The filter shared by eligibleFor and apply. */
  predicate Qualifies(c: Candidate, amount: real, now: int)
  {
    && c.discount.Some?
    && IsCurrentlyActive(c.discount.value, now)
    && MeetsOrderValue(c.discount.value, amount)
    && HasUsageRemaining(c.assignment, c.discount)
  }

  /** The activation window is closed at both ends and an absent bound is no bound. */
  lemma ActiveWindow(d: Discount, now: int)
    ensures IsCurrentlyActive(d, now) <==>
      d.isActive && d.startsAt.GetOr(now) <= now <= d.expiresAt.GetOr(now)
  {
  }

  /** The active instants form an interval: active at two instants means active at every instant between. */
  lemma ActiveBetween(d: Discount, t1: int, t: int, t2: int)
    requires t1 <= t <= t2
    requires IsCurrentlyActive(d, t1) && IsCurrentlyActive(d, t2)
    ensures IsCurrentlyActive(d, t)
  {
  }

  /** An order that meets a discount's minimum keeps meeting it when it grows. */
  lemma OrderValueUpwardClosed(d: Discount, amount: real, larger: real)
    requires amount <= larger && MeetsOrderValue(d, amount)
    ensures MeetsOrderValue(d, larger)
  {
  }

  /**
   * For a non-negative amount, the engine's checks select exactly the
   * discounts that Discount's active and eligible scopes select together.
   */
  lemma EngineAgreesWithScopes(d: Discount, amount: real, now: int)
    requires amount >= 0.0
    ensures IsCurrentlyActive(d, now) && MeetsOrderValue(d, amount) <==>
      d.isActive && InEligibleScope(d, amount, now)
  {
  }

  /** The two readings part only on a negative amount and a minimum of exactly 0. */
  lemma ZeroMinimumIgnoredForNegativeAmount(d: Discount, amount: real)
    requires d.minOrderValue == Some(0.0) && amount < 0.0
    ensures MeetsOrderValue(d, amount) && !(d.minOrderValue.None? || d.minOrderValue.value <= amount)
  {
  }
}
