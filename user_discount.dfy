/**
 * The UserDiscount record (src/Models/UserDiscount.php): one assignment of a
 * discount to a user, with its revocation and usage state, and the two query
 * scopes the engine builds its queries from.
 */
module UserDiscountModel {
  import opened Wrappers
  import opened DiscountModel
  import Seqs

  /**
   * One row of the user_discounts table. `id` is the auto-incremented key;
   * `usageCount` is an unsigned column that starts at 0.
   */
  datatype UserDiscount = UserDiscount(
    id: nat,
    userId: nat,
    discountId: nat,
    assignedAt: int,
    revokedAt: Option<int>,
    usageCount: nat,
    lastUsedAt: Option<int>)

  predicate IsRevoked(ud: UserDiscount)
  {
    ud.revokedAt.Some?
  }

  /**
   * hasUsageRemaining, given the discount relation as loaded (None when the
   * discount row is missing): no limit, or fewer uses than the limit.
   */
  predicate HasUsageRemaining(ud: UserDiscount, discount: Option<Discount>)
  {
    var cap := if discount.Some? then discount.value.maxUsesPerUser else None;
    cap.None? || ud.usageCount < cap.value
  }

  /** Rows listed in strictly increasing key order, as a query without orderBy returns them. */
  ghost predicate KeyOrdered(rows: seq<UserDiscount>)
  {
    forall i, j :: 0 <= i < j < |rows| ==> rows[i].id < rows[j].id
  }

  /** scopeActive: the assignments that have not been revoked, in the order given. */
  function ScopeActive(rows: seq<UserDiscount>): (r: seq<UserDiscount>)
    ensures forall ud :: ud in r <==> ud in rows && !IsRevoked(ud)
    ensures KeyOrdered(rows) ==> KeyOrdered(r)
    ensures (forall ud :: ud in rows ==> !IsRevoked(ud)) ==> r == rows
  {
    var keep := (ud: UserDiscount) => ud.revokedAt.None?;
    FilterKeepsKeyOrder(rows, keep);
    Seqs.FilterKeepsAll(rows, keep);
    Seqs.Filter(rows, keep)
  }

  /** scopeForUser: the assignments that belong to `user`, in the order given. */
  function ScopeForUser(rows: seq<UserDiscount>, user: nat): (r: seq<UserDiscount>)
    ensures forall ud :: ud in r <==> ud in rows && ud.userId == user
    ensures KeyOrdered(rows) ==> KeyOrdered(r)
    ensures (forall ud :: ud in rows ==> ud.userId == user) ==> r == rows
  {
    var keep := (ud: UserDiscount) => ud.userId == user;
    FilterKeepsKeyOrder(rows, keep);
    Seqs.FilterKeepsAll(rows, keep);
    Seqs.Filter(rows, keep)
  }

  lemma FilterKeepsKeyOrder(rows: seq<UserDiscount>, keep: UserDiscount -> bool)
    ensures KeyOrdered(rows) ==> KeyOrdered(Seqs.Filter(rows, keep))
  {
    if KeyOrdered(rows) {
      Seqs.FilterPairwise(rows, keep, (a: UserDiscount, b: UserDiscount) => a.id < b.id);
    }
  }

  /** Without a usage limit (or without a loaded discount) every assignment has usage remaining. */
  lemma UncappedHasUsageRemaining(ud: UserDiscount, discount: Option<Discount>)
    requires discount.None? || !HasUsageCap(discount.value)
    ensures HasUsageRemaining(ud, discount)
  {
  }

  /** With a limit, usage remains exactly while the count is below it. */
  lemma CappedUsageRemaining(ud: UserDiscount, d: Discount)
    requires HasUsageCap(d)
    ensures HasUsageRemaining(ud, Some(d)) <==> ud.usageCount < d.maxUsesPerUser.value
  {
  }

  /** A limit of 0 makes an assignment ineligible whatever its usage count. */
  lemma ZeroCapNeverRemaining(ud: UserDiscount, d: Discount)
    requires d.maxUsesPerUser == Some(0)
    ensures !HasUsageRemaining(ud, Some(d))
  {
  }

  /** Using an assignment more can only take its remaining usage away, never give it back. */
  lemma UsageRemainingAntitone(ud: UserDiscount, more: nat, discount: Option<Discount>)
    requires ud.usageCount <= more
    ensures HasUsageRemaining(ud.(usageCount := more), discount) ==> HasUsageRemaining(ud, discount)
  {
  }
}
