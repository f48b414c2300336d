/**
 * The scenarios of the package's unit tests (tests/Unit/DiscountManagerTest.php),
 * replayed on the model with the published configuration: one user (key 1),
 * discounts keyed from 1, assignment rows keyed by position, all at instant 0.
 */
module Scenarios {
  import opened Wrappers
  import opened Rounding
  import opened DiscountModel
  import opened UserDiscountModel
  import opened Settings
  import opened Eligibility
  import opened Catalog
  import opened StackingOrder
  import opened Stacking
  import opened Manager
  import Seqs

  /** SAVE20: 20 percent, priority 20, stackable. */
  const Save20 := Discount(1, "SAVE20", "percentage", 20.0, None, None, None, None, true, None, 20, true)

  /** FLAT10: 10 off, priority 10, not stackable. */
  const Flat10 := Discount(2, "FLAT10", "fixed", 10.0, None, None, None, None, true, None, 10, false)

  /** An unrevoked assignment of discount `discountId` to user 1 with `uses` uses. */
  function Row(id: nat, discountId: nat, uses: nat): UserDiscount
  {
    UserDiscount(id, 1, discountId, 0, None, uses, None)
  }

  lemma StackedEligible()
    ensures Eligible([Save20, Flat10], [Row(0, 1, 0), Row(1, 2, 0)], 1, 200.0, 0)
      == [Candidate(Row(0, 1, 0), Some(Save20)), Candidate(Row(1, 2, 0), Some(Flat10))]
  {
    StackedLoaded();
    StackedQualify();
    AllQualify([Save20, Flat10], [Row(0, 1, 0), Row(1, 2, 0)], 200.0,
               [Candidate(Row(0, 1, 0), Some(Save20)), Candidate(Row(1, 2, 0), Some(Flat10))]);
  }

  lemma StackedQualify()
    ensures var loaded := [Candidate(Row(0, 1, 0), Some(Save20)), Candidate(Row(1, 2, 0), Some(Flat10))];
      forall i :: 0 <= i < |loaded| ==> Qualifies(loaded[i], 200.0, 0)
  {
  }

  lemma StackedLoaded()
    ensures Loaded([Save20, Flat10], [Row(0, 1, 0), Row(1, 2, 0)], 1)
      == [Candidate(Row(0, 1, 0), Some(Save20)), Candidate(Row(1, 2, 0), Some(Flat10))]
  {
    LoadedAll([Save20, Flat10], [Row(0, 1, 0), Row(1, 2, 0)]);
    StackedFound();
  }

  lemma StackedFound()
    ensures FindById([Save20, Flat10], 1) == Some(Save20)
    ensures FindById([Save20, Flat10], 2) == Some(Flat10)
  {
    assert FirstIndex([Save20, Flat10], (d: Discount) => d.id == 2) == 1 by {
      assert [Save20, Flat10][1..] == [Flat10];
    }
  }

  /** When every loaded candidate qualifies at instant 0, all of them are eligible. */
  lemma AllQualify(catalog: seq<Discount>, rows: seq<UserDiscount>, amount: real, loaded: seq<Candidate>)
    requires Loaded(catalog, rows, 1) == loaded
    requires forall i :: 0 <= i < |loaded| ==> Qualifies(loaded[i], amount, 0)
    ensures Eligible(catalog, rows, 1, amount, 0) == loaded
  {
    EligibleKeepsAll(catalog, rows, 1, amount, 0);
  }

  /** When every row is an assignment of user 1, the user's loaded assignments are the unrevoked ones. */
  lemma LoadedOfUser(catalog: seq<Discount>, rows: seq<UserDiscount>)
    requires forall ud :: ud in rows ==> ud.userId == 1
    ensures Loaded(catalog, rows, 1) == WithDiscounts(catalog, UserDiscountModel.ScopeActive(rows))
  {
    assert ScopeForUser(rows, 1) == rows;
  }

  /** When every row is an unrevoked assignment of user 1, the user's loaded assignments are all of them. */
  lemma LoadedAll(catalog: seq<Discount>, rows: seq<UserDiscount>)
    requires forall ud :: ud in rows ==> ud.userId == 1 && !IsRevoked(ud)
    ensures Loaded(catalog, rows, 1) == WithDiscounts(catalog, rows)
  {
    assert ScopeForUser(rows, 1) == rows;
  }

  lemma StackedOrder()
    ensures var s := [Candidate(Row(0, 1, 0), Some(Save20)), Candidate(Row(1, 2, 0), Some(Flat10))];
      OrderDiscounts(Published, s) == s
  {
    var s := [Candidate(Row(0, 1, 0), Some(Save20)), Candidate(Row(1, 2, 0), Some(Flat10))];
    StackedSorted();
    StackedCodesDiffer();
    SortedArrangementUnique(Published, OrderDiscounts(Published, s), s);
  }

  lemma StackedSorted()
    ensures Sorted(Published, [Candidate(Row(0, 1, 0), Some(Save20)), Candidate(Row(1, 2, 0), Some(Flat10))])
  {
    var s := [Candidate(Row(0, 1, 0), Some(Save20)), Candidate(Row(1, 2, 0), Some(Flat10))];
    assert Precedes(Published, s[0], s[1]);
  }

  lemma StackedCodesDiffer()
    ensures var s := [Candidate(Row(0, 1, 0), Some(Save20)), Candidate(Row(1, 2, 0), Some(Flat10))];
      forall x, y :: x in s && y in s && CodeOf(x) == CodeOf(y) ==> x == y
  {
    var s := [Candidate(Row(0, 1, 0), Some(Save20)), Candidate(Row(1, 2, 0), Some(Flat10))];
    assert CodeOf(s[0])[0] != CodeOf(s[1])[0];
  }

  /** Rounding to cents leaves a whole number of cents as it is. */
  lemma Cents(x: real)
    requires (x * 100.0).Floor as real == x * 100.0
    ensures Round(x, 2, Floor) == x
  {
    assert Scale(2) == 100.0;
    RoundOnGrid(x, 2, Floor);
  }

  lemma StackedLoop()
    ensures var s := [Candidate(Row(0, 1, 0), Some(Save20)), Candidate(Row(1, 2, 0), Some(Flat10))];
      Stack(Published, 200.0, s, Start(200.0))
        == Ok(Outcome(150.0, 50.0, [Step(Row(0, 1, 0), Save20, 40.0, 160.0), Step(Row(1, 2, 0), Flat10, 10.0, 150.0)]))
  {
    var s := [Candidate(Row(0, 1, 0), Some(Save20)), Candidate(Row(1, 2, 0), Some(Flat10))];
    Cents(40.0);
    Cents(160.0);
    Cents(10.0);
    Cents(150.0);
    assert StepAmount(Published, 200.0, s[0], 200.0, 0.0) == Ok(Some(40.0));
    var next := Outcome(160.0, 40.0, [Step(Row(0, 1, 0), Save20, 40.0, 160.0)]);
    StackUnfold(Published, 200.0, s, Start(200.0));
    assert StepAmount(Published, 200.0, s[1], 160.0, 40.0) == Ok(Some(10.0));
    StackUnfold(Published, 200.0, s[1..], next);
    assert !StopsAfter(Published, 200.0, Save20, 40.0);
    assert Round(Start(200.0).running - 40.0, Published.precision, Published.rounding) == 160.0;
    assert Start(200.0).steps + [Step(s[0].assignment, s[0].discount.value, 40.0, 160.0)] == next.steps;
    assert Stack(Published, 200.0, s, Start(200.0)) == Stack(Published, 200.0, s[1..], next);
    assert StopsAfter(Published, 200.0, Flat10, 50.0);
    assert next.steps + [Step(Row(1, 2, 0), Flat10, 10.0, 150.0)]
      == [Step(Row(0, 1, 0), Save20, 40.0, 160.0), Step(Row(1, 2, 0), Flat10, 10.0, 150.0)];
  }

  lemma StackedCheckout()
    ensures Checkout([Save20, Flat10], Published, [Row(0, 1, 0), Row(1, 2, 0)], 1, 200.0, 0)
      == Ok(Outcome(150.0, 50.0, [Step(Row(0, 1, 0), Save20, 40.0, 160.0), Step(Row(1, 2, 0), Flat10, 10.0, 150.0)]))
  {
    Cents(200.0);
    StackedEligible();
    StackedOrder();
    StackedLoop();
  }

  /**
   * test_apply_calculates_stacked_discounts_respecting_caps: SAVE20 goes
   * first (higher priority) and takes 40 off 200, FLAT10 takes 10 off what
   * is left and, not being stackable, ends the loop at 150; each assignment
   * is used once and each application is audited.
   */
  lemma StackedDiscounts()
    ensures var rows := [Row(0, 1, 0), Row(1, 2, 0)];
      var r := Checkout([Save20, Flat10], Published, rows, 1, 200.0, 0);
      && r.Ok?
      && r.value.running == 150.0
      && ApplyUsage(rows, r.value.steps, 0)
           == [Row(0, 1, 1).(lastUsedAt := Some(0)), Row(1, 2, 1).(lastUsedAt := Some(0))]
      && AuditsOf(1, None, 200.0, None, r.value.steps)
           == [AuditEntry(1, 1, Applied, None, Some(200.0), Some(160.0), Some(40.0), None),
               AuditEntry(1, 2, Applied, None, Some(200.0), Some(150.0), Some(10.0), None)]
  {
    StackedCheckout();
    StackedTables();
  }

  lemma StackedTables()
    ensures var steps := [Step(Row(0, 1, 0), Save20, 40.0, 160.0), Step(Row(1, 2, 0), Flat10, 10.0, 150.0)];
      && ApplyUsage([Row(0, 1, 0), Row(1, 2, 0)], steps, 0)
           == [Row(0, 1, 1).(lastUsedAt := Some(0)), Row(1, 2, 1).(lastUsedAt := Some(0))]
      && AuditsOf(1, None, 200.0, None, steps)
           == [AuditEntry(1, 1, Applied, None, Some(200.0), Some(160.0), Some(40.0), None),
               AuditEntry(1, 2, Applied, None, Some(200.0), Some(150.0), Some(10.0), None)]
  {
    var steps := [Step(Row(0, 1, 0), Save20, 40.0, 160.0), Step(Row(1, 2, 0), Flat10, 10.0, 150.0)];
    assert steps[..1] == [steps[0]];
    assert ApplyUsage([Row(0, 1, 0), Row(1, 2, 0)], steps[..1], 0) == [Row(0, 1, 1).(lastUsedAt := Some(0)), Row(1, 2, 0)];
  }

  // ---------------------------------------------------------------------------
  // test_usage_cap_prevents_additional_applications

  /** ONEUSE: 15 off, priority 5, stackable, one use per user. */
  const OneUse := Discount(1, "ONEUSE", "fixed", 15.0, None, None, None, None, true, Some(1), 5, true)

  /** The published configuration with max_percentage raised to 100. */
  const FullCap := Config(Priority, Desc, Some(100.0), Floor, 2)

  lemma FirstUseLoop()
    ensures Stack(FullCap, 100.0, [Candidate(Row(0, 1, 0), Some(OneUse))], Start(100.0))
      == Ok(Outcome(85.0, 15.0, [Step(Row(0, 1, 0), OneUse, 15.0, 85.0)]))
  {
    var s := [Candidate(Row(0, 1, 0), Some(OneUse))];
    Cents(15.0);
    Cents(85.0);
    assert StepAmount(FullCap, 100.0, s[0], 100.0, 0.0) == Ok(Some(15.0));
    StackUnfold(FullCap, 100.0, s, Start(100.0));
    assert Round(Start(100.0).running - 15.0, FullCap.precision, FullCap.rounding) == 85.0;
    assert !StopsAfter(FullCap, 100.0, OneUse, 15.0);
    assert s[1..] == [];
    assert Start(100.0).steps + [Step(s[0].assignment, s[0].discount.value, 15.0, 85.0)]
      == [Step(Row(0, 1, 0), OneUse, 15.0, 85.0)];
  }

  /** The first apply of 100 takes 15 off and uses the assignment once. */
  lemma FirstUse()
    ensures Checkout([OneUse], FullCap, [Row(0, 1, 0)], 1, 100.0, 0)
      == Ok(Outcome(85.0, 15.0, [Step(Row(0, 1, 0), OneUse, 15.0, 85.0)]))
    ensures ApplyUsage([Row(0, 1, 0)], [Step(Row(0, 1, 0), OneUse, 15.0, 85.0)], 0)
      == [Row(0, 1, 1).(lastUsedAt := Some(0))]
  {
    FirstUseCheckout();
    FirstUseRow();
  }

  lemma FirstUseRow()
    ensures ApplyUsage([Row(0, 1, 0)], [Step(Row(0, 1, 0), OneUse, 15.0, 85.0)], 0)
      == [Row(0, 1, 1).(lastUsedAt := Some(0))]
  {
    var steps := [Step(Row(0, 1, 0), OneUse, 15.0, 85.0)];
    assert steps[..0] == [];
  }

  lemma FirstUseCheckout()
    ensures Checkout([OneUse], FullCap, [Row(0, 1, 0)], 1, 100.0, 0)
      == Ok(Outcome(85.0, 15.0, [Step(Row(0, 1, 0), OneUse, 15.0, 85.0)]))
  {
    Cents(100.0);
    FirstUseEligible();
    var s := [Candidate(Row(0, 1, 0), Some(OneUse))];
    assert Sorted(FullCap, s);
    SortedArrangementUnique(FullCap, OrderDiscounts(FullCap, s), s);
    FirstUseLoop();
  }

  lemma FirstUseEligible()
    ensures Eligible([OneUse], [Row(0, 1, 0)], 1, 100.0, 0) == [Candidate(Row(0, 1, 0), Some(OneUse))]
  {
    LoadedAll([OneUse], [Row(0, 1, 0)]);
    assert WithDiscounts([OneUse], [Row(0, 1, 0)]) == [Candidate(Row(0, 1, 0), Some(OneUse))];
    AllQualify([OneUse], [Row(0, 1, 0)], 100.0, [Candidate(Row(0, 1, 0), Some(OneUse))]);
  }

  /**
   * The second apply, of 80, finds the only assignment used up: nothing is
   * eligible, nothing is taken off and no row changes.
   */
  lemma SecondUse()
    ensures Checkout([OneUse], FullCap, [Row(0, 1, 1).(lastUsedAt := Some(0))], 1, 80.0, 0) == Ok(Start(80.0))
  {
    Cents(80.0);
    assert OrderDiscounts(FullCap, []) == [];
  }

  // ---------------------------------------------------------------------------
  // test_eligible_for_excludes_expired_and_revoked_discounts

  const Active := Discount(1, "ACTIVE", "fixed", 5.0, None, None, None, None, true, None, 1, false)

  /** OLD expired before the instant of the query. */
  const Expired := Discount(2, "OLD", "fixed", 5.0, None, None, None, Some(-1), true, None, 1, false)

  /** INACTIVE was switched off, and its assignment revoked. */
  const Inactive := Discount(3, "INACTIVE", "fixed", 5.0, None, None, None, None, false, None, 1, false)

  /** Three rows of user 1, the last revoked. */
  const ThreeRows := [Row(0, 1, 0), Row(1, 2, 0), Row(2, 3, 0).(revokedAt := Some(0))]

  lemma ThreeRowsLoaded()
    ensures Loaded([Active, Expired, Inactive], ThreeRows, 1)
      == [Candidate(Row(0, 1, 0), Some(Active)), Candidate(Row(1, 2, 0), Some(Expired))]
  {
    LoadedOfUser([Active, Expired, Inactive], ThreeRows);
    ThreeRowsActive();
    ThreeRowsDiscounts();
  }

  lemma ThreeRowsDiscounts()
    ensures WithDiscounts([Active, Expired, Inactive], [Row(0, 1, 0), Row(1, 2, 0)])
      == [Candidate(Row(0, 1, 0), Some(Active)), Candidate(Row(1, 2, 0), Some(Expired))]
  {
    assert FindById([Active, Expired, Inactive], 2) == Some(Expired);
  }

  /** The revoked third row drops out of the active scope. */
  lemma ThreeRowsActive()
    ensures UserDiscountModel.ScopeActive(ThreeRows) == [Row(0, 1, 0), Row(1, 2, 0)]
  {
    var rows := ThreeRows;
    var keep := (ud: UserDiscount) => ud.revokedAt.None?;
    assert rows[1..][1..][1..] == [];
    assert Seqs.Filter(rows[1..][1..], keep) == [];
    assert Seqs.Filter(rows[1..], keep) == [rows[1]];
    assert Seqs.Filter(rows, keep) == [rows[0], rows[1]];
  }

  lemma ActiveFilter()
    ensures var loaded := [Candidate(Row(0, 1, 0), Some(Active)), Candidate(Row(1, 2, 0), Some(Expired))];
      Seqs.Filter(loaded, (c: Candidate) => Qualifies(c, 50.0, 0)) == [loaded[0]]
  {
    var loaded := [Candidate(Row(0, 1, 0), Some(Active)), Candidate(Row(1, 2, 0), Some(Expired))];
    var keep := (c: Candidate) => Qualifies(c, 50.0, 0);
    assert !keep(loaded[1]);
    assert loaded[1..][1..] == [];
    assert Seqs.Filter(loaded[1..], keep) == [];
  }

  /** Of the three assignments only ACTIVE's is eligible for an order of 50. */
  lemma OnlyActiveEligible()
    ensures Eligible([Active, Expired, Inactive], ThreeRows, 1, 50.0, 0) == [Candidate(Row(0, 1, 0), Some(Active))]
  {
    ThreeRowsLoaded();
    ActiveFilter();
  }
}
