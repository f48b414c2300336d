/**
 * What DiscountManager::apply guarantees, stated about Checkout and the
 * table updates its Apply method is proved to perform: how the amounts add
 * up, when it can fail, which assignments it uses, and that no per-user
 * usage limit is ever passed.
 */
module ApplyFacts {
  import opened Wrappers
  import opened Rounding
  import opened DiscountModel
  import opened UserDiscountModel
  import opened Eligibility
  import opened Catalog
  import opened StackingOrder
  import opened Calculator
  import opened Stacking
  import opened Manager

  /**
   * The final amount is the rounded order amount less everything taken off,
   * rounding it once more changes nothing, it never exceeds the rounded
   * order amount, and it is not negative for a non-negative order amount.
   */
  lemma CheckoutAccounting(catalog: seq<Discount>, cfg: Settings.Config, rows: seq<UserDiscount>, user: nat,
                           amount: real, now: int)
    ensures var original := Round(amount, cfg.precision, cfg.rounding);
      var r := Checkout(catalog, cfg, rows, user, amount, now);
      r.Ok? ==>
        && r.value.total == Taken(r.value.steps)
        && r.value.running == original - r.value.total
        && Round(r.value.running, cfg.precision, cfg.rounding) == r.value.running
        && r.value.running <= original
        && (amount >= 0.0 ==> r.value.running >= 0.0)
  {
    var original := Round(amount, cfg.precision, cfg.rounding);
    var ordered := OrderDiscounts(cfg, Eligible(catalog, rows, user, original, now));
    StartAccounting(cfg, original, ordered);
    if amount >= 0.0 {
      assert OnGrid(0.0, cfg.precision);
      RoundOnGrid(0.0, cfg.precision, cfg.rounding);
      RoundMonotone(0.0, amount, cfg.precision, cfg.rounding);
    }
  }

  /** CheckoutAccounting for the loop run from its start over any candidates. */
  lemma StartAccounting(cfg: Settings.Config, original: real, ordered: seq<Candidate>)
    requires OnGrid(original, cfg.precision)
    ensures var r := Stack(cfg, original, ordered, Start(original));
      r.Ok? ==>
        && r.value.total == Taken(r.value.steps)
        && r.value.running == original - r.value.total
        && Round(r.value.running, cfg.precision, cfg.rounding) == r.value.running
        && r.value.running <= original
        && (original >= 0.0 ==> r.value.running >= 0.0)
  {
    StackAccounting(cfg, original, ordered, Start(original));
    var r := Stack(cfg, original, ordered, Start(original));
    if r.Ok? {
      RoundOnGrid(r.value.running, cfg.precision, cfg.rounding);
    }
  }

  /** Sorting changes the order of the candidates and nothing else. */
  lemma OrderedMembers(cfg: Settings.Config, s: seq<Candidate>)
    ensures forall c :: c in OrderDiscounts(cfg, s) <==> c in s
  {
    var t := OrderDiscounts(cfg, s);
    forall c ensures c in t <==> c in s {
      assert c in t <==> c in multiset(t);
      assert c in s <==> c in multiset(s);
    }
  }

  /**
   * apply fails only on an eligible discount whose type is neither
   * percentage nor fixed, and always succeeds when there is none: the usage
   * check inside the loop can never fire, since the eligibility filter has
   * already dropped every assignment without usage left.
   */
  lemma CheckoutErrors(catalog: seq<Discount>, cfg: Settings.Config, rows: seq<UserDiscount>, user: nat,
                       amount: real, now: int)
    ensures var eligible := Eligible(catalog, rows, user, Round(amount, cfg.precision, cfg.rounding), now);
      var r := Checkout(catalog, cfg, rows, user, amount, now);
      && (r.Err? ==>
            && r.error == UnsupportedType
            && exists c :: c in eligible && !IsPercentage(c.discount.value) && !IsFixed(c.discount.value))
      && ((forall c :: c in eligible ==> IsPercentage(c.discount.value) || IsFixed(c.discount.value)) ==> r.Ok?)
  {
    var original := Round(amount, cfg.precision, cfg.rounding);
    var eligible := Eligible(catalog, rows, user, original, now);
    var ordered := OrderDiscounts(cfg, eligible);
    OrderedMembers(cfg, eligible);
    StackErrors(cfg, original, ordered, Start(original));
  }

  /**
   * Every application comes from an eligible assignment with its own
   * discount and takes a positive amount; all but the last are stackable;
   * and, rows being listed in key order, no assignment is applied twice.
   */
  lemma CheckoutSteps(catalog: seq<Discount>, cfg: Settings.Config, rows: seq<UserDiscount>, user: nat,
                      amount: real, now: int)
    ensures var eligible := Eligible(catalog, rows, user, Round(amount, cfg.precision, cfg.rounding), now);
      var r := Checkout(catalog, cfg, rows, user, amount, now);
      r.Ok? ==>
        var steps := r.value.steps;
        && (forall i :: 0 <= i < |steps| ==>
              Candidate(steps[i].assignment, Some(steps[i].discount)) in eligible && steps[i].amount > 0.0)
        && (forall i :: 0 <= i < |steps| - 1 ==> steps[i].discount.isStackable)
        && (KeyOrdered(rows) ==>
              forall i, j :: 0 <= i < j < |steps| ==> steps[i].assignment.id != steps[j].assignment.id)
  {
    var original := Round(amount, cfg.precision, cfg.rounding);
    var eligible := Eligible(catalog, rows, user, original, now);
    var ordered := OrderDiscounts(cfg, eligible);
    OrderedMembers(cfg, eligible);
    StackSteps(cfg, original, ordered, Start(original));
    if KeyOrdered(rows) {
      OrderKeepsIdsDistinct(cfg, eligible);
    }
  }

  /**
   * The applications of one apply, from the rounded order amount
   * `original`: each records as `after` (the audit row's final amount) the
   * amount before it less what it took off, starting from `original`; so
   * the `after` values fall strictly, each is `original` less the sum taken
   * through it, and none is below the final amount. Every application but
   * the last left the loop running, so under the global cap the total after
   * it was still below the cap.
   */
  ghost predicate Traced(cfg: Settings.Config, original: real, out: Outcome)
  {
    var steps := out.steps;
    && (|steps| > 0 ==> steps[0].after == original - steps[0].amount)
    && (forall i :: 0 < i < |steps| ==> steps[i].after == steps[i - 1].after - steps[i].amount)
    && (forall i :: 0 <= i < |steps| ==> out.running <= steps[i].after < original)
    && (forall i :: 0 <= i < |steps| ==> steps[i].after == original - Taken(steps[..i + 1]))
    && (CapOn(cfg.maxPercentage) ==>
          forall i :: 0 <= i < |steps| - 1 ==> original - steps[i].after < CapAmount(original, cfg.maxPercentage))
  }

  /** What apply records as each application's final amount, and its stop at the global cap, as Traced says. */
  lemma CheckoutTrace(catalog: seq<Discount>, cfg: Settings.Config, rows: seq<UserDiscount>, user: nat,
                      amount: real, now: int)
    ensures var r := Checkout(catalog, cfg, rows, user, amount, now);
      r.Ok? ==> Traced(cfg, Round(amount, cfg.precision, cfg.rounding), r.value)
  {
    var original := Round(amount, cfg.precision, cfg.rounding);
    var ordered := OrderDiscounts(cfg, Eligible(catalog, rows, user, original, now));
    assert Checkout(catalog, cfg, rows, user, amount, now) == Stack(cfg, original, ordered, Start(original));
    StartTrace(cfg, original, ordered);
  }

  /** CheckoutTrace for the loop run from its start over any candidates. */
  lemma StartTrace(cfg: Settings.Config, original: real, ordered: seq<Candidate>)
    requires OnGrid(original, cfg.precision)
    ensures var r := Stack(cfg, original, ordered, Start(original));
      r.Ok? ==> Traced(cfg, original, r.value)
  {
    StackTrace(cfg, original, ordered, Start(original));
    var r := Stack(cfg, original, ordered, Start(original));
    if r.Ok? {
      TraceFromStart(cfg, original, r.value);
    }
  }

  /** The loop's trace from its start gives Traced. */
  lemma TraceFromStart(cfg: Settings.Config, original: real, out: Outcome)
    requires TraceFrom(cfg, original, Start(original), out.steps)
    requires forall i :: 0 <= i < |out.steps| ==> out.running <= out.steps[i].after < original
    ensures Traced(cfg, original, out)
  {
    TracePrefixTaken(original, out.steps);
  }

  /** Along a trace from the start, each step's `after` is the start less the sum taken through it. */
  lemma {:induction false} TracePrefixTaken(original: real, steps: seq<Step>)
    requires |steps| > 0 ==> steps[0].after == original - steps[0].amount
    requires forall i :: 0 < i < |steps| ==> steps[i].after == steps[i - 1].after - steps[i].amount
    ensures forall i :: 0 <= i < |steps| ==> steps[i].after == original - Taken(steps[..i + 1])
  {
    forall i | 0 <= i < |steps| ensures steps[i].after == original - Taken(steps[..i + 1]) {
      TracePrefixAt(original, steps, i);
    }
  }

  lemma {:induction false} TracePrefixAt(original: real, steps: seq<Step>, i: nat)
    requires i < |steps|
    requires steps[0].after == original - steps[0].amount
    requires forall k :: 0 < k < |steps| ==> steps[k].after == steps[k - 1].after - steps[k].amount
    ensures steps[i].after == original - Taken(steps[..i + 1])
    decreases i
  {
    assert steps[..i + 1][..i] == steps[..i];
    assert Taken(steps[..i + 1]) == Taken(steps[..i]) + steps[i].amount;
    if i == 0 {
      assert steps[..i] == [];
    } else {
      TracePrefixAt(original, steps, i - 1);
    }
  }

  /** Every row whose discount carries a usage limit has been used no more times than the limit. */
  ghost predicate WithinCaps(catalog: seq<Discount>, rows: seq<UserDiscount>)
  {
    forall i :: 0 <= i < |rows| && FindById(catalog, rows[i].discountId).Some? ==>
      var d := FindById(catalog, rows[i].discountId).value;
      d.maxUsesPerUser.Some? ==> rows[i].usageCount <= d.maxUsesPerUser.value
  }

  /**
   * The rows apply saves: each row either stays as it is or is one of the
   * user's unrevoked assignments with usage left, and then gets exactly one
   * more use and the time of use; and the row of every application does get
   * that one more use.
   */
  lemma AppliedRows(catalog: seq<Discount>, cfg: Settings.Config, rows: seq<UserDiscount>, user: nat,
                    amount: real, now: int)
    requires forall i :: 0 <= i < |rows| ==> rows[i].id == i
    ensures var r := Checkout(catalog, cfg, rows, user, amount, now);
      r.Ok? ==>
        var after := ApplyUsage(rows, r.value.steps, now);
        forall i :: 0 <= i < |rows| ==>
          || after[i] == rows[i]
          || (&& after[i] == rows[i].(usageCount := rows[i].usageCount + 1, lastUsedAt := Some(now))
              && rows[i].userId == user
              && !IsRevoked(rows[i])
              && HasUsageRemaining(rows[i], FindById(catalog, rows[i].discountId)))
    ensures var r := Checkout(catalog, cfg, rows, user, amount, now);
      r.Ok? ==>
        var after := ApplyUsage(rows, r.value.steps, now);
        forall s :: s in r.value.steps ==>
          && s.assignment.id < |rows|
          && after[s.assignment.id]
             == rows[s.assignment.id].(usageCount := rows[s.assignment.id].usageCount + 1, lastUsedAt := Some(now))
  {
    var r := Checkout(catalog, cfg, rows, user, amount, now);
    assert KeyOrdered(rows);
    if r.Ok? {
      CheckoutSteps(catalog, cfg, rows, user, amount, now);
      StepsFromEligible(catalog, rows, user, Round(amount, cfg.precision, cfg.rounding), now, r.value.steps);
      UsageRows(catalog, rows, user, r.value.steps, now);
    }
  }

  /** Applications drawn from the eligible candidates use the user's unrevoked rows with usage left. */
  lemma StepsFromEligible(catalog: seq<Discount>, rows: seq<UserDiscount>, user: nat, amount: real, now: int,
                          steps: seq<Step>)
    requires forall i :: 0 <= i < |steps| ==>
      Candidate(steps[i].assignment, Some(steps[i].discount)) in Eligible(catalog, rows, user, amount, now)
    ensures forall s :: s in steps ==>
      && s.assignment in rows && s.assignment.userId == user && !IsRevoked(s.assignment)
      && HasUsageRemaining(s.assignment, FindById(catalog, s.assignment.discountId))
  {
    forall s | s in steps
      ensures && s.assignment in rows && s.assignment.userId == user && !IsRevoked(s.assignment)
              && HasUsageRemaining(s.assignment, FindById(catalog, s.assignment.discountId))
    {
      var n :| 0 <= n < |steps| && steps[n] == s;
      EligibleMember(catalog, rows, user, amount, now, Candidate(s.assignment, Some(s.discount)));
    }
  }

  /** An eligible candidate is an unrevoked assignment of the user, with its own discount and usage left. */
  lemma EligibleMember(catalog: seq<Discount>, rows: seq<UserDiscount>, user: nat, amount: real, now: int, c: Candidate)
    requires c in Eligible(catalog, rows, user, amount, now)
    ensures && c.assignment in rows && c.assignment.userId == user && !IsRevoked(c.assignment)
            && c.discount == FindById(catalog, c.assignment.discountId)
            && HasUsageRemaining(c.assignment, c.discount)
  {
  }

  /** AppliedRows for any applications drawn from distinct unrevoked rows of the user with usage left. */
  lemma UsageRows(catalog: seq<Discount>, rows: seq<UserDiscount>, user: nat, steps: seq<Step>, now: int)
    requires forall i :: 0 <= i < |rows| ==> rows[i].id == i
    requires forall s :: s in steps ==>
      && s.assignment in rows && s.assignment.userId == user && !IsRevoked(s.assignment)
      && HasUsageRemaining(s.assignment, FindById(catalog, s.assignment.discountId))
    requires forall i, j :: 0 <= i < j < |steps| ==> steps[i].assignment.id != steps[j].assignment.id
    ensures var after := ApplyUsage(rows, steps, now);
      forall s :: s in steps ==>
        && s.assignment.id < |rows|
        && after[s.assignment.id]
           == rows[s.assignment.id].(usageCount := rows[s.assignment.id].usageCount + 1, lastUsedAt := Some(now))
    ensures var after := ApplyUsage(rows, steps, now);
      forall i :: 0 <= i < |rows| ==>
        || after[i] == rows[i]
        || (&& after[i] == rows[i].(usageCount := rows[i].usageCount + 1, lastUsedAt := Some(now))
            && rows[i].userId == user
            && !IsRevoked(rows[i])
            && HasUsageRemaining(rows[i], FindById(catalog, rows[i].discountId)))
  {
    var after := ApplyUsage(rows, steps, now);
    ApplyUsageChanges(rows, steps, now);
    ApplyUsageBumps(rows, steps, now);
    forall s | s in steps ensures s.assignment.id < |rows| {
      var k :| 0 <= k < |rows| && rows[k] == s.assignment;
      assert rows[k].id == k;
    }
    forall i | 0 <= i < |rows| && after[i] != rows[i]
      ensures after[i] == rows[i].(usageCount := rows[i].usageCount + 1, lastUsedAt := Some(now))
    {
      var s :| s in steps && s.assignment.id == i
        && after[i].usageCount == s.assignment.usageCount + 1 && after[i].lastUsedAt == Some(now);
      var k :| 0 <= k < |rows| && rows[k] == s.assignment;
      assert rows[k].id == k;
    }
  }

  /** apply never takes an assignment past its discount's usage limit. */
  lemma ApplyKeepsWithinCaps(catalog: seq<Discount>, cfg: Settings.Config, rows: seq<UserDiscount>, user: nat,
                             amount: real, now: int)
    requires forall i :: 0 <= i < |rows| ==> rows[i].id == i
    requires WithinCaps(catalog, rows)
    ensures var r := Checkout(catalog, cfg, rows, user, amount, now);
      r.Ok? ==> WithinCaps(catalog, ApplyUsage(rows, r.value.steps, now))
  {
    var r := Checkout(catalog, cfg, rows, user, amount, now);
    if r.Ok? {
      AppliedRows(catalog, cfg, rows, user, amount, now);
      BumpsWithinCaps(catalog, rows, ApplyUsage(rows, r.value.steps, now), now);
    }
  }

  /** Adding one use to rows that had usage left keeps every row within its limit. */
  lemma BumpsWithinCaps(catalog: seq<Discount>, rows: seq<UserDiscount>, after: seq<UserDiscount>, now: int)
    requires |after| == |rows|
    requires forall i :: 0 <= i < |rows| ==>
      || after[i] == rows[i]
      || (&& after[i] == rows[i].(usageCount := rows[i].usageCount + 1, lastUsedAt := Some(now))
          && HasUsageRemaining(rows[i], FindById(catalog, rows[i].discountId)))
    requires WithinCaps(catalog, rows)
    ensures WithinCaps(catalog, after)
  {
    forall i | 0 <= i < |after| && FindById(catalog, after[i].discountId).Some?
      ensures var d := FindById(catalog, after[i].discountId).value;
        d.maxUsesPerUser.Some? ==> after[i].usageCount <= d.maxUsesPerUser.value
    {
      assert after[i].discountId == rows[i].discountId;
    }
  }
}
