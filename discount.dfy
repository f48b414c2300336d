/**
 * The Discount record (src/Models/Discount.php): a discount definition, its
 * type tests and its two query scopes. Timestamps are whole seconds, amounts
 * exact reals; `kind` is the `type` column, kept as the free-form string the
 * table stores.
 */
module DiscountModel {
  import opened Wrappers
  import Seqs

  datatype Discount = Discount(
    id: nat,
    code: string,
    kind: string,
    value: real,
    minOrderValue: Option<real>,
    maxDiscountAmount: Option<real>,
    startsAt: Option<int>,
    expiresAt: Option<int>,
    isActive: bool,
    maxUsesPerUser: Option<nat>,
    priority: int,
    isStackable: bool)

  /** hasUsageCap: a per-user limit is configured (a limit of 0 counts). */
  predicate HasUsageCap(d: Discount)
  {
    d.maxUsesPerUser.Some?
  }

  predicate IsPercentage(d: Discount)
  {
    d.kind == "percentage"
  }

  predicate IsFixed(d: Discount)
  {
    d.kind == "fixed"
  }

  /** The two type tests are exclusive: no discount is both a percentage and a fixed amount. */
  lemma TypeTestsExclusive(d: Discount)
    ensures !(IsPercentage(d) && IsFixed(d))
  {
  }

  /** The row condition of scopeEligible at instant `now` for an order of `amount`. */
  predicate InEligibleScope(d: Discount, amount: real, now: int)
  {
    && (d.startsAt.None? || d.startsAt.value <= now)
    && (d.expiresAt.None? || d.expiresAt.value >= now)
    && (d.minOrderValue.None? || d.minOrderValue.value <= amount)
  }

  /** scopeActive: the discounts whose administrative switch is on. */
  function ScopeActive(ds: seq<Discount>): (r: seq<Discount>)
    ensures forall d :: d in r <==> d in ds && d.isActive
  {
    Seqs.Filter(ds, (d: Discount) => d.isActive)
  }

  /**
   * scopeEligible: the discounts whose window contains `now` (both bounds
   * inclusive, an absent bound imposes nothing) and whose minimum order value,
   * if any, is at most `amount`.
   */
  function ScopeEligible(ds: seq<Discount>, amount: real, now: int): (r: seq<Discount>)
    ensures forall d :: d in r <==> d in ds && InEligibleScope(d, amount, now)
  {
    Seqs.Filter(ds, (d: Discount) => InEligibleScope(d, amount, now))
  }

  /** An eligible discount stays eligible for every larger order at the same instant. */
  lemma EligibleScopeUpwardClosed(ds: seq<Discount>, amount: real, larger: real, now: int)
    requires amount <= larger
    ensures forall d :: d in ScopeEligible(ds, amount, now) ==> d in ScopeEligible(ds, larger, now)
  {
  }
}
