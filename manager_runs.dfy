/**
 * The package's unit tests (tests/Unit/DiscountManagerTest.php) run against
 * a DiscountManager object: each run starts from empty tables, assigns and
 * revokes through the manager, and applies or lists as the test does, all at
 * instant 0 for user 1. The outcomes follow from the operations' contracts
 * and the table-level lemmas of module Scenarios.
 */
module ManagerRuns {
  import opened Wrappers
  import opened DiscountModel
  import opened UserDiscountModel
  import opened Settings
  import opened Rounding
  import opened Stacking
  import opened Eligibility
  import opened Catalog
  import opened Manager
  import opened Scenarios

  /** The 'assigned' audit row of discount `discountId` for user 1. */
  function AssignedEntry(discountId: nat): AuditEntry
  {
    AuditEntry(1, discountId, Assigned, None, None, None, None, None)
  }

  /** A code stored in capitals, carried by one row only, finds that row. */
  lemma FoundByCode(catalog: seq<Discount>, d: Discount)
    requires d in catalog
    requires forall i :: 0 <= i < |d.code| ==> !IsLower(d.code[i])
    requires forall e :: e in catalog && e.code == d.code ==> e == d
    ensures FindDiscountByCode(catalog, d.code) == Ok(d)
  {
    assert Upper(d.code) == d.code;
  }

  /** A whole amount is a whole number of cents, so rounding to cents keeps it. */
  lemma WholeCents(n: int)
    ensures Round(n as real, 2, Floor) == n as real
  {
    assert (n as real * 100.0).Floor == n * 100;
    Cents(n as real);
  }

  // ---------------------------------------------------------------------------
  // The three operations as the tests call them

  /**
   * assign of a current discount to user 1, who has no row for it yet: a new
   * row under key `key` with no uses, and an 'assigned' audit row.
   */
  method AssignFresh(m: DiscountManager, catalog: seq<Discount>, code: string, d: Discount, id: nat, key: nat)
    returns (r: Result<()>)
    requires m.Valid() && |m.rows| == key
    requires FindDiscountByCode(catalog, code) == Ok(d) && d.id == id
    requires IsCurrentlyActive(d, 0)
    requires forall i :: 0 <= i < |m.rows| ==> m.rows[i].discountId != id
    modifies m
    ensures m.Valid() && r == Ok(())
    ensures m.rows == old(m.rows) + [Row(key, id, 0)]
    ensures m.audits == old(m.audits) + [AssignedEntry(id)]
  {
    assert forall ud :: ud in m.rows ==> ud.discountId != d.id;
    r := m.Assign(catalog, 1, code, None, None, 0);
  }

  /**
   * revoke of user 1's unrevoked assignment `k` of discount `d`: the row is
   * stamped revoked at 0 and a 'revoked' audit row is written.
   */
  method RevokeCurrent(m: DiscountManager, catalog: seq<Discount>, code: string, d: Discount, k: nat)
    returns (r: Result<()>)
    requires m.Valid()
    requires FindDiscountByCode(catalog, code) == Ok(d)
    requires FindAssignment(m.rows, 1, d.id) == Some(k)
    requires m.rows[k].revokedAt.None?
    modifies m
    ensures m.Valid() && r == Ok(())
    ensures m.rows == old(m.rows)[k := old(m.rows)[k].(revokedAt := Some(0))]
    ensures m.audits == old(m.audits) + [AuditEntry(1, d.id, Revoked, None, None, None, None, None)]
  {
    r := m.Revoke(catalog, 1, code, 0);
  }

  /** apply for user 1 at instant 0, when the checkout of the current rows succeeds with `out`. */
  method ApplyKnown(m: DiscountManager, catalog: seq<Discount>, cfg: Config, amount: real, out: Outcome)
    returns (r: Result<real>)
    requires m.Valid()
    requires Checkout(catalog, cfg, m.rows, 1, amount, 0) == Ok(out)
    modifies m
    ensures m.Valid()
    ensures r == Ok(Round(out.running, cfg.precision, cfg.rounding))
    ensures m.rows == ApplyUsage(old(m.rows), out.steps, 0)
    ensures m.audits == old(m.audits) + AuditsOf(1, None, Round(amount, cfg.precision, cfg.rounding), None, out.steps)
  {
    r := m.Apply(catalog, cfg, 1, amount, None, None, 0);
  }

  // ---------------------------------------------------------------------------
  // test_apply_calculates_stacked_discounts_respecting_caps

  /** The discounts table of the stacked test. */
  const Stacked := [Save20, Flat10]

  lemma SaveCode()
    ensures FindDiscountByCode(Stacked, "SAVE20") == Ok(Save20)
  {
    assert Save20.code[0] != Flat10.code[0];
    FoundByCode(Stacked, Save20);
  }

  lemma FlatCode()
    ensures FindDiscountByCode(Stacked, "FLAT10") == Ok(Flat10)
  {
    assert Save20.code[0] != Flat10.code[0];
    FoundByCode(Stacked, Flat10);
  }

  /** The amounts of the stacked test are whole cents. */
  lemma StackedRounding()
    ensures Round(200.0, Published.precision, Published.rounding) == 200.0
    ensures Round(150.0, Published.precision, Published.rounding) == 150.0
  {
    WholeCents(200);
    WholeCents(150);
  }

  /** A new manager after assigning SAVE20 and then FLAT10 to user 1. */
  method StackedAssigned() returns (m: DiscountManager)
    ensures fresh(m) && m.Valid()
    ensures m.rows == [Row(0, 1, 0), Row(1, 2, 0)]
    ensures m.audits == [AssignedEntry(1), AssignedEntry(2)]
  {
    SaveCode();
    FlatCode();
    m := new DiscountManager();
    var status := AssignFresh(m, Stacked, "SAVE20", Save20, 1, 0);
    assert m.rows == [Row(0, 1, 0)];
    status := AssignFresh(m, Stacked, "FLAT10", Flat10, 2, 1);
  }

  /**
   * SAVE20 and FLAT10 are assigned, then 200 is applied. The result is 150,
   * both assignments are used once, and the audit log holds the two
   * 'assigned' rows followed by the two 'applied' rows.
   */
  method StackedRun() returns (final: Result<real>, rows: seq<UserDiscount>, audits: seq<AuditEntry>)
    ensures final == Ok(150.0)
    ensures rows == [Row(0, 1, 1).(lastUsedAt := Some(0)), Row(1, 2, 1).(lastUsedAt := Some(0))]
    ensures audits == [AssignedEntry(1), AssignedEntry(2)] +
                      [AuditEntry(1, 1, Applied, None, Some(200.0), Some(160.0), Some(40.0), None),
                       AuditEntry(1, 2, Applied, None, Some(200.0), Some(150.0), Some(10.0), None)]
  {
    var m := StackedAssigned();
    StackedCheckout();
    StackedTables();
    StackedRounding();
    final := ApplyKnown(m, Stacked, Published, 200.0,
      Outcome(150.0, 50.0, [Step(Row(0, 1, 0), Save20, 40.0, 160.0), Step(Row(1, 2, 0), Flat10, 10.0, 150.0)]));
    rows, audits := m.rows, m.audits;
  }

  // ---------------------------------------------------------------------------
  // test_usage_cap_prevents_additional_applications

  /** The amounts of the first apply are whole cents. */
  lemma FirstUseRounding()
    ensures Round(100.0, FullCap.precision, FullCap.rounding) == 100.0
    ensures Round(85.0, FullCap.precision, FullCap.rounding) == 85.0
  {
    WholeCents(100);
    WholeCents(85);
  }

  /** The amount of the second apply is whole cents. */
  lemma SecondUseRounding()
    ensures Round(80.0, FullCap.precision, FullCap.rounding) == 80.0
  {
    WholeCents(80);
  }

  /**
   * ONEUSE (one use per user) is assigned, then 100 and 80 are applied. The
   * first apply gives 85, the second finds the assignment used up and gives
   * 80, and the assignment ends with one use.
   */
  method UsageCapRun() returns (first: Result<real>, second: Result<real>, rows: seq<UserDiscount>)
    ensures first == Ok(85.0)
    ensures second == Ok(80.0)
    ensures rows == [Row(0, 1, 1).(lastUsedAt := Some(0))]
  {
    var catalog := [OneUse];
    FoundByCode(catalog, OneUse);
    var m := new DiscountManager();
    var status := AssignFresh(m, catalog, "ONEUSE", OneUse, 1, 0);
    assert m.rows == [Row(0, 1, 0)];
    FirstUse();
    FirstUseRounding();
    first := ApplyKnown(m, catalog, FullCap, 100.0, Outcome(85.0, 15.0, [Step(Row(0, 1, 0), OneUse, 15.0, 85.0)]));
    SecondUse();
    SecondUseRounding();
    second := ApplyKnown(m, catalog, FullCap, 80.0, Start(80.0));
    rows := m.rows;
  }

  // ---------------------------------------------------------------------------
  // test_eligible_for_excludes_expired_and_revoked_discounts

  /** OLD as it was assigned: it expires a day after the instant of the test. */
  const NotYetExpired := Discount(2, "OLD", "fixed", 5.0, None, None, None, Some(86400), true, None, 1, false)

  /** INACTIVE as it was assigned: still switched on. */
  const StillActive := Discount(3, "INACTIVE", "fixed", 5.0, None, None, None, None, true, None, 1, false)

  /** The discounts table while the three discounts are assigned. */
  const Before := [Active, NotYetExpired, StillActive]

  lemma ActiveCode()
    ensures FindDiscountByCode(Before, "ACTIVE") == Ok(Active)
  {
    assert Active.code[0] != Expired.code[0] && Active.code[0] != Inactive.code[0];
    FoundByCode(Before, Active);
  }

  lemma OldCode()
    ensures FindDiscountByCode(Before, "OLD") == Ok(NotYetExpired)
  {
    assert Active.code[0] != Expired.code[0] && Expired.code[0] != Inactive.code[0];
    FoundByCode(Before, NotYetExpired);
  }

  lemma InactiveCode()
    ensures FindDiscountByCode(Before, "INACTIVE") == Ok(StillActive)
  {
    assert Active.code[0] != Inactive.code[0] && Expired.code[0] != Inactive.code[0];
    FoundByCode(Before, StillActive);
  }

  /** Once OLD has expired and INACTIVE is switched off, INACTIVE is still found by its code. */
  lemma AfterCode()
    ensures FindDiscountByCode([Active, Expired, Inactive], "INACTIVE") == Ok(Inactive)
  {
    assert Active.code[0] != Inactive.code[0] && Expired.code[0] != Inactive.code[0];
    FoundByCode([Active, Expired, Inactive], Inactive);
  }

  /** A new manager after assigning ACTIVE and then OLD to user 1. */
  method TwoAssigned() returns (m: DiscountManager)
    ensures fresh(m) && m.Valid()
    ensures m.rows == [Row(0, 1, 0), Row(1, 2, 0)]
  {
    ActiveCode();
    OldCode();
    m := new DiscountManager();
    var status := AssignFresh(m, Before, "ACTIVE", Active, 1, 0);
    assert m.rows == [Row(0, 1, 0)];
    status := AssignFresh(m, Before, "OLD", NotYetExpired, 2, 1);
  }

  /** A new manager after assigning ACTIVE, OLD and INACTIVE to user 1 while all three are current. */
  method ThreeAssigned() returns (m: DiscountManager)
    ensures fresh(m) && m.Valid()
    ensures m.rows == [Row(0, 1, 0), Row(1, 2, 0), Row(2, 3, 0)]
  {
    m := TwoAssigned();
    InactiveCode();
    var status := AssignFresh(m, Before, "INACTIVE", StillActive, 3, 2);
  }

  /**
   * ACTIVE, OLD and INACTIVE are assigned while all three are current; then
   * OLD expires, INACTIVE is switched off and revoked. Only ACTIVE is
   * eligible for an order of 50.
   */
  method EligibleRun() returns (eligible: seq<Candidate>, rows: seq<UserDiscount>)
    ensures eligible == [Candidate(Row(0, 1, 0), Some(Active))]
    ensures rows == ThreeRows
  {
    var m := ThreeAssigned();
    var after := [Active, Expired, Inactive];
    AfterCode();
    assert FindAssignment(m.rows, 1, 3) == Some(2);
    var status := RevokeCurrent(m, after, "INACTIVE", Inactive, 2);
    assert m.rows == ThreeRows;
    OnlyActiveEligible();
    eligible := m.EligibleFor(after, 1, 50.0, 0);
    rows := m.rows;
  }
}
