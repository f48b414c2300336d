/**
 * DiscountManager: the user_discounts and discount_audits tables, and the
 * four public operations over them. The discounts table is read only and is
 * passed in as `catalog`; the clock is the parameter `now`. Each operation
 * runs in one transaction: on an error the tables are left exactly as they
 * were. Apply models this by running the loop on local copies and committing
 * them only on success; Assign and Revoke find every error before their first
 * write.
 */
module Manager {
  import opened Wrappers
  import opened Rounding
  import opened DiscountModel
  import opened UserDiscountModel
  import opened Settings
  import opened Eligibility
  import opened Catalog
  import opened Calculator
  import opened StackingOrder
  import opened Stacking
  import Seqs

  datatype Action = Assigned | Revoked | Applied

  /** One row of discount_audits. */
  datatype AuditEntry = AuditEntry(
    userId: nat,
    discountId: nat,
    action: Action,
    orderId: Option<nat>,
    originalAmount: Option<real>,
    finalAmount: Option<real>,
    discountAmount: Option<real>,
    context: Option<string>)

  // ---------------------------------------------------------------------------
  // Queries

  /** The row for (`user`, `discountId`), if any: forUser(...)->where('discount_id', ...)->first(). */
  function FindAssignment(rows: seq<UserDiscount>, user: nat, discountId: nat): (r: Option<nat>)
    ensures r.Some? ==> r.value < |rows| && rows[r.value].userId == user && rows[r.value].discountId == discountId
    ensures r.None? <==> forall ud :: ud in rows ==> !(ud.userId == user && ud.discountId == discountId)
    decreases |rows|
  {
    if rows == [] then None
    else if rows[|rows| - 1].userId == user && rows[|rows| - 1].discountId == discountId then
      match FindAssignment(rows[..|rows| - 1], user, discountId)
      case Some(k) => Some(k)
      case None => Some(|rows| - 1)
    else
      assert forall ud :: ud in rows ==> ud in rows[..|rows| - 1] || ud == rows[|rows| - 1];
      FindAssignment(rows[..|rows| - 1], user, discountId)
  }

  /** Pairs each assignment with its discount as loaded by with('discount'). */
  function WithDiscounts(catalog: seq<Discount>, rows: seq<UserDiscount>): (r: seq<Candidate>)
    ensures |r| == |rows|
    ensures forall i :: 0 <= i < |rows| ==> r[i] == Candidate(rows[i], FindById(catalog, rows[i].discountId))
  {
    if rows == [] then []
    else [Candidate(rows[0], FindById(catalog, rows[0].discountId))] + WithDiscounts(catalog, rows[1..])
  }

  /**
   * forUser($userId)->active()->with('discount')->get(): the user's
   * unrevoked assignments in key order, each with its discount as loaded.
   */
  function Loaded(catalog: seq<Discount>, rows: seq<UserDiscount>, user: nat): (r: seq<Candidate>)
    ensures forall c :: c in r <==>
      && c.assignment in rows
      && c.assignment.userId == user
      && !IsRevoked(c.assignment)
      && c.discount == FindById(catalog, c.assignment.discountId)
    ensures KeyOrdered(rows) ==> forall i, j :: 0 <= i < j < |r| ==> r[i].assignment.id < r[j].assignment.id
  {
    var active := UserDiscountModel.ScopeActive(ScopeForUser(rows, user));
    WithDiscountsMembers(catalog, active);
    WithDiscounts(catalog, active)
  }

  lemma WithDiscountsMembers(catalog: seq<Discount>, active: seq<UserDiscount>)
    ensures var r := WithDiscounts(catalog, active);
      forall c :: c in r <==> c.assignment in active && c.discount == FindById(catalog, c.assignment.discountId)
  {
    var r := WithDiscounts(catalog, active);
    forall c: Candidate | c.assignment in active && c.discount == FindById(catalog, c.assignment.discountId)
      ensures c in r
    {
      var k :| 0 <= k < |active| && active[k] == c.assignment;
      assert r[k] == c;
    }
  }

  /**
   * The candidates that pass the filter of eligibleFor and apply, for an
   * order of `amount` at instant `now`; no assignment occurs twice.
   */
  function Eligible(catalog: seq<Discount>, rows: seq<UserDiscount>, user: nat, amount: real, now: int): (r: seq<Candidate>)
    ensures forall c :: c in r <==> c in Loaded(catalog, rows, user) && Qualifies(c, amount, now)
    ensures KeyOrdered(rows) ==> DistinctIds(r)
  {
    var keep := (c: Candidate) => Qualifies(c, amount, now);
    EligibleKeepsKeyOrder(Loaded(catalog, rows, user), keep, KeyOrdered(rows));
    Seqs.Filter(Loaded(catalog, rows, user), keep)
  }

  /** When every loaded candidate qualifies, the filter keeps them all, in the order loaded. */
  lemma EligibleKeepsAll(catalog: seq<Discount>, rows: seq<UserDiscount>, user: nat, amount: real, now: int)
    requires forall c :: c in Loaded(catalog, rows, user) ==> Qualifies(c, amount, now)
    ensures Eligible(catalog, rows, user, amount, now) == Loaded(catalog, rows, user)
  {
    Seqs.FilterKeepsAll(Loaded(catalog, rows, user), (c: Candidate) => Qualifies(c, amount, now));
  }

  lemma EligibleKeepsKeyOrder(s: seq<Candidate>, keep: Candidate -> bool, ordered: bool)
    requires ordered ==> forall i, j :: 0 <= i < j < |s| ==> s[i].assignment.id < s[j].assignment.id
    ensures ordered ==> DistinctIds(Seqs.Filter(s, keep))
  {
    if ordered {
      var rel := (a: Candidate, b: Candidate) => a.assignment.id < b.assignment.id;
      Seqs.FilterPairwise(s, keep, rel);
      var r := Seqs.Filter(s, keep);
      assert forall i, j :: 0 <= i < j < |r| ==> rel(r[i], r[j]);
    }
  }

  /**
   * What apply does to the tables, as a value: the order amount is rounded,
   * the eligible candidates are put in stacking order and the loop runs over
   * them from the rounded amount.
   */
  function Checkout(catalog: seq<Discount>, cfg: Config, rows: seq<UserDiscount>, user: nat, amount: real, now: int): (r: Result<Outcome>)
    ensures r.Ok? ==> OnGrid(r.value.running, cfg.precision)
  {
    var original := Round(amount, cfg.precision, cfg.rounding);
    Stack(cfg, original, OrderDiscounts(cfg, Eligible(catalog, rows, user, original, now)), Start(original))
  }

  // ---------------------------------------------------------------------------
  // Table updates

  /** The save() after one application: the row gets the loaded count plus one and the time of use. */
  function UseRow(rows: seq<UserDiscount>, s: Step, now: int): (r: seq<UserDiscount>)
    ensures |r| == |rows|
    ensures forall i :: 0 <= i < |rows| && i != s.assignment.id ==> r[i] == rows[i]
    ensures s.assignment.id < |rows| ==>
      r[s.assignment.id] == rows[s.assignment.id].(usageCount := s.assignment.usageCount + 1, lastUsedAt := Some(now))
  {
    var id := s.assignment.id;
    if id < |rows| then rows[id := rows[id].(usageCount := s.assignment.usageCount + 1, lastUsedAt := Some(now))]
    else rows
  }

  /** The saves of all the applications, in order. */
  function ApplyUsage(rows: seq<UserDiscount>, steps: seq<Step>, now: int): (r: seq<UserDiscount>)
    ensures |r| == |rows|
  {
    if steps == [] then rows
    else UseRow(ApplyUsage(rows, steps[..|steps| - 1], now), steps[|steps| - 1], now)
  }

  /**
   * Only usage and time of use change, and only in the rows of the
   * applications; each such row ends up with its loaded count plus one.
   */
  lemma {:induction false} ApplyUsageChanges(rows: seq<UserDiscount>, steps: seq<Step>, now: int)
    ensures var r := ApplyUsage(rows, steps, now);
      forall i :: 0 <= i < |rows| ==>
        && r[i] == rows[i].(usageCount := r[i].usageCount, lastUsedAt := r[i].lastUsedAt)
        && ((forall s :: s in steps ==> s.assignment.id != i) ==> r[i] == rows[i])
        && (r[i] != rows[i] ==>
              exists s :: s in steps && s.assignment.id == i
                && r[i].usageCount == s.assignment.usageCount + 1 && r[i].lastUsedAt == Some(now))
    decreases |steps|
  {
    if steps != [] {
      var prefix := steps[..|steps| - 1];
      ApplyUsageChanges(rows, prefix, now);
      assert forall s :: s in prefix ==> s in steps;
      assert steps[|steps| - 1] in steps;
    }
  }

  /**
   * When the applications use distinct rows of the table, each as loaded,
   * every one of those rows ends up with exactly one more use, at `now`.
   */
  lemma ApplyUsageBumps(rows: seq<UserDiscount>, steps: seq<Step>, now: int)
    requires forall i :: 0 <= i < |rows| ==> rows[i].id == i
    requires forall s :: s in steps ==> s.assignment in rows
    requires forall i, j :: 0 <= i < j < |steps| ==> steps[i].assignment.id != steps[j].assignment.id
    ensures var r := ApplyUsage(rows, steps, now);
      forall s :: s in steps ==>
        r[s.assignment.id] == rows[s.assignment.id].(usageCount := rows[s.assignment.id].usageCount + 1,
                                                      lastUsedAt := Some(now))
  {
    forall s | s in steps
      ensures ApplyUsage(rows, steps, now)[s.assignment.id]
        == rows[s.assignment.id].(usageCount := rows[s.assignment.id].usageCount + 1, lastUsedAt := Some(now))
    {
      var n :| 0 <= n < |steps| && steps[n] == s;
      assert forall i :: 0 <= i < |steps| ==> steps[i] in steps;
      ApplyUsageBumpAt(rows, steps, now, n);
    }
  }

  /** ApplyUsageBumps for the application at position `n`. */
  lemma {:induction false} ApplyUsageBumpAt(rows: seq<UserDiscount>, steps: seq<Step>, now: int, n: nat)
    requires forall i :: 0 <= i < |rows| ==> rows[i].id == i
    requires forall i :: 0 <= i < |steps| ==> steps[i].assignment in rows
    requires forall i, j :: 0 <= i < j < |steps| ==> steps[i].assignment.id != steps[j].assignment.id
    requires n < |steps|
    ensures var id := steps[n].assignment.id;
      id < |rows| && ApplyUsage(rows, steps, now)[id] == rows[id].(usageCount := rows[id].usageCount + 1, lastUsedAt := Some(now))
    decreases |steps|
  {
    var prefix := steps[..|steps| - 1];
    var last := steps[|steps| - 1];
    var before := ApplyUsage(rows, prefix, now);
    assert ApplyUsage(rows, steps, now) == UseRow(before, last, now);
    var k :| 0 <= k < |rows| && rows[k] == steps[n].assignment;
    assert rows[k].id == k;
    if n == |steps| - 1 {
      ApplyUsageUntouched(rows, prefix, now, k);
    } else {
      ApplyUsageBumpAt(rows, prefix, now, n);
    }
  }

  /** A row no application names is left as it is. */
  lemma {:induction false} ApplyUsageUntouched(rows: seq<UserDiscount>, steps: seq<Step>, now: int, k: nat)
    requires k < |rows|
    requires forall i :: 0 <= i < |steps| ==> steps[i].assignment.id != k
    ensures ApplyUsage(rows, steps, now)[k] == rows[k]
    decreases |steps|
  {
    if steps != [] {
      ApplyUsageUntouched(rows, steps[..|steps| - 1], now, k);
    }
  }

  /** The 'applied' audit row of one application. */
  function AppliedEntry(user: nat, orderId: Option<nat>, original: real, context: Option<string>, s: Step): AuditEntry
  {
    AuditEntry(user, s.discount.id, Applied, orderId, Some(original), Some(s.after), Some(s.amount), context)
  }

  /** The 'applied' audit rows of all the applications, in order. */
  function AuditsOf(user: nat, orderId: Option<nat>, original: real, context: Option<string>, steps: seq<Step>): (r: seq<AuditEntry>)
    ensures |r| == |steps|
  {
    seq(|steps|, i requires 0 <= i < |steps| => AppliedEntry(user, orderId, original, context, steps[i]))
  }

  /** One 'applied' audit row per application, in order, recording what it took off and what was left. */
  lemma AuditsOfEntries(user: nat, orderId: Option<nat>, original: real, context: Option<string>, steps: seq<Step>)
    ensures var r := AuditsOf(user, orderId, original, context, steps);
      forall i :: 0 <= i < |steps| ==>
        && r[i].userId == user
        && r[i].action == Applied
        && r[i].discountId == steps[i].discount.id
        && r[i].originalAmount == Some(original)
        && r[i].discountAmount == Some(steps[i].amount)
        && r[i].finalAmount == Some(steps[i].after)
  {
  }

  /**
   * The user_discounts table's constraints: each row's key is its position,
   * and the unique index on (user_id, discount_id) holds.
   */
  ghost predicate Keyed(rows: seq<UserDiscount>)
  {
    && (forall i :: 0 <= i < |rows| ==> rows[i].id == i)
    && (forall i, j :: 0 <= i < j < |rows| ==>
          !(rows[i].userId == rows[j].userId && rows[i].discountId == rows[j].discountId))
  }

  /** Inserting a row for a pair that has none, under the next key, keeps the constraints; the lookup then finds it. */
  lemma InsertKeyed(rows: seq<UserDiscount>, row: UserDiscount)
    requires Keyed(rows) && row.id == |rows|
    requires FindAssignment(rows, row.userId, row.discountId).None?
    ensures Keyed(rows + [row])
    ensures FindAssignment(rows + [row], row.userId, row.discountId) == Some(|rows|)
  {
    assert forall i :: 0 <= i < |rows| ==> rows[i] in rows;
  }

  /** Updating a row without touching its key or pair keeps the constraints; the lookup still finds it. */
  lemma UpdateKeyed(rows: seq<UserDiscount>, k: nat, row: UserDiscount)
    requires Keyed(rows) && k < |rows|
    requires row.id == rows[k].id && row.userId == rows[k].userId && row.discountId == rows[k].discountId
    ensures Keyed(rows[k := row])
    ensures FindAssignment(rows[k := row], row.userId, row.discountId) == Some(k)
  {
    var after := rows[k := row];
    var found := FindAssignment(after, row.userId, row.discountId);
    assert after[k] in after;
    if found.Some? {
      assert found.value == k;
    }
  }

  // ---------------------------------------------------------------------------
  // The manager

  class DiscountManager {
    var rows: seq<UserDiscount>
    var audits: seq<AuditEntry>

    ghost predicate Valid()
      reads this
    {
      Keyed(rows)
    }

    constructor()
      ensures Valid() && rows == [] && audits == []
    {
      rows := [];
      audits := [];
    }

    /**
     * assign: the code must name a discount (NotFound) that is currently
     * active (NotEligible). An unrevoked assignment is left as it is; a
     * revoked one is reinstated, keeping its usage count; otherwise a new row
     * is created with no uses. Either of the last two writes an 'assigned'
     * audit row.
     */
    method Assign(catalog: seq<Discount>, user: nat, code: string, assignedAt: Option<int>,
                  context: Option<string>, now: int) returns (r: Result<()>)
      requires Valid()
      modifies this
      ensures Valid()
      ensures FindDiscountByCode(catalog, code).Err? ==>
        r == Err(NotFound) && rows == old(rows) && audits == old(audits)
      ensures FindDiscountByCode(catalog, code).Ok? && !IsCurrentlyActive(FindDiscountByCode(catalog, code).value, now) ==>
        r == Err(NotEligible) && rows == old(rows) && audits == old(audits)
      ensures FindDiscountByCode(catalog, code).Ok? && IsCurrentlyActive(FindDiscountByCode(catalog, code).value, now) ==>
        var d := FindDiscountByCode(catalog, code).value;
        var entry := AuditEntry(user, d.id, Assigned, None, None, None, None, context);
        && r == Ok(())
        && match FindAssignment(old(rows), user, d.id)
           case None =>
             && rows == old(rows) + [UserDiscount(|old(rows)|, user, d.id, assignedAt.GetOr(now), None, 0, None)]
             && audits == old(audits) + [entry]
           case Some(k) =>
             if old(rows)[k].revokedAt.None? then rows == old(rows) && audits == old(audits)
             else
               && rows == old(rows)[k := old(rows)[k].(assignedAt := assignedAt.GetOr(now), revokedAt := None)]
               && audits == old(audits) + [entry]
      ensures r.Ok? ==>
        var d := FindDiscountByCode(catalog, code).value;
        var k := FindAssignment(rows, user, d.id);
        k.Some? && !IsRevoked(rows[k.value])
    {
      var found := FindDiscountByCode(catalog, code);
      if found.Err? {
        return Err(found.error);
      }
      var d := found.value;
      if !IsCurrentlyActive(d, now) {
        return Err(NotEligible);
      }
      var entry := AuditEntry(user, d.id, Assigned, None, None, None, None, context);
      match FindAssignment(rows, user, d.id) {
      case None =>
        var row := UserDiscount(|rows|, user, d.id, assignedAt.GetOr(now), None, 0, None);
        InsertKeyed(rows, row);
        rows := rows + [row];
        audits := audits + [entry];
      case Some(k) =>
        if rows[k].revokedAt.Some? {
          UpdateKeyed(rows, k, rows[k].(assignedAt := assignedAt.GetOr(now), revokedAt := None));
          rows := rows[k := rows[k].(assignedAt := assignedAt.GetOr(now), revokedAt := None)];
          audits := audits + [entry];
        } else {
          UpdateKeyed(rows, k, rows[k]);
        }
      }
      r := Ok(());
    }

    /**
     * revoke: the code must name a discount (NotFound) that is assigned to
     * the user (NotFound). A revoked assignment is left as it is; otherwise it
     * is stamped revoked at `now` and a 'revoked' audit row is written.
     */
    method Revoke(catalog: seq<Discount>, user: nat, code: string, now: int) returns (r: Result<()>)
      requires Valid()
      modifies this
      ensures Valid()
      ensures FindDiscountByCode(catalog, code).Err? ==>
        r == Err(NotFound) && rows == old(rows) && audits == old(audits)
      ensures FindDiscountByCode(catalog, code).Ok? ==>
        var d := FindDiscountByCode(catalog, code).value;
        match FindAssignment(old(rows), user, d.id)
        case None => r == Err(NotFound) && rows == old(rows) && audits == old(audits)
        case Some(k) =>
          && r == Ok(())
          && if old(rows)[k].revokedAt.Some? then rows == old(rows) && audits == old(audits)
             else
               && rows == old(rows)[k := old(rows)[k].(revokedAt := Some(now))]
               && audits == old(audits) + [AuditEntry(user, d.id, Revoked, None, None, None, None, None)]
      ensures r.Ok? ==>
        var d := FindDiscountByCode(catalog, code).value;
        var k := FindAssignment(rows, user, d.id);
        k.Some? && IsRevoked(rows[k.value])
    {
      var found := FindDiscountByCode(catalog, code);
      if found.Err? {
        return Err(found.error);
      }
      var d := found.value;
      match FindAssignment(rows, user, d.id)
      case None =>
        return Err(NotFound);
      case Some(k) =>
        if rows[k].revokedAt.None? {
          UpdateKeyed(rows, k, rows[k].(revokedAt := Some(now)));
          rows := rows[k := rows[k].(revokedAt := Some(now))];
          audits := audits + [AuditEntry(user, d.id, Revoked, None, None, None, None, None)];
        } else {
          UpdateKeyed(rows, k, rows[k]);
        }
        r := Ok(());
    }

    /** eligibleFor: the user's assignments that pass the filter for an order of `amount`. */
    function EligibleFor(catalog: seq<Discount>, user: nat, amount: real, now: int): (r: seq<Candidate>)
      reads this
      ensures forall c :: c in r <==>
        && c.assignment in rows
        && c.assignment.userId == user
        && !IsRevoked(c.assignment)
        && c.discount == FindById(catalog, c.assignment.discountId)
        && Qualifies(c, amount, now)
      ensures forall c :: c in r ==> c.discount.Some? && IsCurrentlyActive(c.discount.value, now)
    {
      Eligible(catalog, rows, user, amount, now)
    }

    /**
     * apply: the stacking loop over the eligible assignments in stacking
     * order. Each application saves its row with one more use and writes an
     * 'applied' audit row; the result is the rounded final amount. An
     * unsupported discount type or an exhausted usage limit aborts the whole
     * transaction.
     */
    method Apply(catalog: seq<Discount>, cfg: Config, user: nat, amount: real,
                 orderId: Option<nat>, context: Option<string>, now: int) returns (r: Result<real>)
      requires Valid()
      modifies this
      ensures Valid()
      ensures var original := Round(amount, cfg.precision, cfg.rounding);
        match Checkout(catalog, cfg, old(rows), user, amount, now)
        case Err(e) => r == Err(e) && rows == old(rows) && audits == old(audits)
        case Ok(out) =>
          && r == Ok(Round(out.running, cfg.precision, cfg.rounding))
          && rows == ApplyUsage(old(rows), out.steps, now)
          && audits == old(audits) + AuditsOf(user, orderId, original, context, out.steps)
    {
      var original := Round(amount, cfg.precision, cfg.rounding);
      var ordered := OrderDiscounts(cfg, Eligible(catalog, rows, user, original, now));
      var result, newRows, newAudits := RunLoop(cfg, original, ordered, rows, audits, user, orderId, context, now);
      if result.Err? {
        return result;
      }
      ghost var out := Stack(cfg, original, ordered, Start(original)).value;
      ApplyKeepsValid(rows, out.steps, now);
      rows := newRows;
      audits := newAudits;
      r := result;
    }
  }

  /**
   * The loop of apply over the candidates in stacking order, on copies of
   * the two tables: the running amount starts at the rounded order amount,
   * each application bumps its row and appends an 'applied' audit row, and
   * the loop stops after a non-stackable discount or once the total reaches
   * the global cap. Its outcome is the one Stack describes.
   */
  method RunLoop(cfg: Config, original: real, ordered: seq<Candidate>, rows: seq<UserDiscount>,
                 audits: seq<AuditEntry>, user: nat, orderId: Option<nat>, context: Option<string>, now: int)
    returns (r: Result<real>, newRows: seq<UserDiscount>, newAudits: seq<AuditEntry>)
    ensures Stack(cfg, original, ordered, Start(original)).Err? ==>
      r == Err(Stack(cfg, original, ordered, Start(original)).error)
    ensures Stack(cfg, original, ordered, Start(original)).Ok? ==>
      var out := Stack(cfg, original, ordered, Start(original)).value;
      && r == Ok(Round(out.running, cfg.precision, cfg.rounding))
      && newRows == ApplyUsage(rows, out.steps, now)
      && newAudits == audits + AuditsOf(user, orderId, original, context, out.steps)
  {
    var running := original;
    var total := 0.0;
    ghost var steps: seq<Step> := [];
    newRows := rows;
    newAudits := audits;
    var i := 0;
    while i < |ordered|
      invariant 0 <= i <= |ordered|
      invariant newRows == ApplyUsage(rows, steps, now)
      invariant newAudits == audits + AuditsOf(user, orderId, original, context, steps)
      invariant Stack(cfg, original, ordered, Start(original)) == Stack(cfg, original, ordered[i..], Outcome(running, total, steps))
      decreases |ordered| - i
    {
      var c := ordered[i];
      ghost var cur := Outcome(running, total, steps);
      var verdict := DiscountFor(cfg, original, c, running, total);
      LoopTurn(cfg, original, ordered, i, cur);
      i := i + 1;
      if verdict.Err? {
        r := Err(verdict.error);
        return;
      }
      if verdict.value.None? {
        continue;
      }
      var d := c.discount.value;
      var discountAmount := verdict.value.value;
      running := Round(running - discountAmount, cfg.precision, cfg.rounding);
      total := total + discountAmount;
      var step := Step(c.assignment, d, discountAmount, running);
      newRows, newAudits := Record(rows, audits, steps, newRows, newAudits, step, user, orderId, original, context, now);
      steps := steps + [step];
      if !d.isStackable {
        break;
      }
      if CapOn(cfg.maxPercentage) && total >= CapAmount(original, cfg.maxPercentage) {
        break;
      }
    }
    r := Ok(Round(running, cfg.precision, cfg.rounding));
  }

  /**
   * The body of the loop for one candidate up to the usage check: skip a
   * missing discount, compute the amount, skip it when not positive, clamp
   * it to the discount's maximum (when non-zero) and to the running amount,
   * round it, skip it when not positive, and fail when the usage limit is
   * exhausted. This is the statement-by-statement form RunLoop executes;
   * Stacking.StepAmount is the same turn as a function, which Stack and the
   * lemmas about it use, and the ensures proves the two agree.
   */
  method DiscountFor(cfg: Config, original: real, c: Candidate, running: real, total: real)
    returns (r: Result<Option<real>>)
    ensures r == StepAmount(cfg, original, c, running, total)
  {
    if c.discount.None? {
      return Ok(None);
    }
    var d := c.discount.value;
    var calculated := CalculateDiscountAmount(d, running, original, total, cfg.maxPercentage);
    if calculated.Err? {
      return Err(calculated.error);
    }
    var discountAmount := calculated.value;
    if discountAmount <= 0.0 {
      return Ok(None);
    }
    if Truthy(d.maxDiscountAmount) {
      discountAmount := Min(discountAmount, d.maxDiscountAmount.value);
    }
    discountAmount := Min(discountAmount, running);
    discountAmount := Round(discountAmount, cfg.precision, cfg.rounding);
    if discountAmount <= 0.0 {
      return Ok(None);
    }
    if d.maxUsesPerUser.Some? && d.maxUsesPerUser.value != 0 && c.assignment.usageCount >= d.maxUsesPerUser.value {
      return Err(UsageExceeded);
    }
    return Ok(Some(discountAmount));
  }

  // ---------------------------------------------------------------------------
  // Helpers for the method proofs

  /** The writes of one application: its row's save and its 'applied' audit row. */
  method Record(rows: seq<UserDiscount>, audits: seq<AuditEntry>, ghost steps: seq<Step>,
                newRows: seq<UserDiscount>, newAudits: seq<AuditEntry>, step: Step,
                user: nat, orderId: Option<nat>, original: real, context: Option<string>, now: int)
    returns (rowsOut: seq<UserDiscount>, auditsOut: seq<AuditEntry>)
    requires newRows == ApplyUsage(rows, steps, now)
    requires newAudits == audits + AuditsOf(user, orderId, original, context, steps)
    ensures rowsOut == ApplyUsage(rows, steps + [step], now)
    ensures auditsOut == audits + AuditsOf(user, orderId, original, context, steps + [step])
  {
    rowsOut := UseRow(newRows, step, now);
    auditsOut := newAudits + [AppliedEntry(user, orderId, original, context, step)];
    TablesAppend(rows, audits, steps, step, user, orderId, original, context, now);
  }

  lemma TablesAppend(rows: seq<UserDiscount>, audits: seq<AuditEntry>, steps: seq<Step>, step: Step,
                     user: nat, orderId: Option<nat>, original: real, context: Option<string>, now: int)
    ensures ApplyUsage(rows, steps + [step], now) == UseRow(ApplyUsage(rows, steps, now), step, now)
    ensures audits + AuditsOf(user, orderId, original, context, steps + [step])
      == audits + AuditsOf(user, orderId, original, context, steps) + [AppliedEntry(user, orderId, original, context, step)]
  {
    assert (steps + [step])[..|steps|] == steps;
    var a := AuditsOf(user, orderId, original, context, steps + [step]);
    var b := AuditsOf(user, orderId, original, context, steps) + [AppliedEntry(user, orderId, original, context, step)];
    assert |a| == |b|;
    assert forall k :: 0 <= k < |a| ==> a[k] == b[k];
  }

  /** One turn of the loop at position `i`, as Stack takes it. */
  lemma LoopTurn(cfg: Config, original: real, ordered: seq<Candidate>, i: nat, acc: Outcome)
    requires i < |ordered|
    ensures var c := ordered[i];
      match StepAmount(cfg, original, c, acc.running, acc.total)
      case Err(e) => Stack(cfg, original, ordered[i..], acc) == Err(e)
      case Ok(None) => Stack(cfg, original, ordered[i..], acc) == Stack(cfg, original, ordered[i + 1..], acc)
      case Ok(Some(amount)) =>
        var running := Round(acc.running - amount, cfg.precision, cfg.rounding);
        var next := Outcome(running, acc.total + amount,
                            acc.steps + [Step(c.assignment, c.discount.value, amount, running)]);
        Stack(cfg, original, ordered[i..], acc) ==
          if StopsAfter(cfg, original, c.discount.value, next.total) then Ok(next)
          else Stack(cfg, original, ordered[i + 1..], next)
  {
    StackUnfold(cfg, original, ordered[i..], acc);
    assert ordered[i..][0] == ordered[i] && ordered[i..][1..] == ordered[i + 1..];
  }

  /** One turn of the loop, as Stack takes it. */
  lemma StackUnfold(cfg: Config, original: real, todo: seq<Candidate>, acc: Outcome)
    requires todo != []
    ensures var c := todo[0];
      match StepAmount(cfg, original, c, acc.running, acc.total)
      case Err(e) => Stack(cfg, original, todo, acc) == Err(e)
      case Ok(None) => Stack(cfg, original, todo, acc) == Stack(cfg, original, todo[1..], acc)
      case Ok(Some(amount)) =>
        var running := Round(acc.running - amount, cfg.precision, cfg.rounding);
        var next := Outcome(running, acc.total + amount,
                            acc.steps + [Step(c.assignment, c.discount.value, amount, running)]);
        Stack(cfg, original, todo, acc) ==
          if StopsAfter(cfg, original, c.discount.value, next.total) then Ok(next)
          else Stack(cfg, original, todo[1..], next)
  {
  }

  /** Recording uses touches no key and no (user, discount) pair, so the table's constraints survive. */
  lemma ApplyKeepsValid(rows: seq<UserDiscount>, steps: seq<Step>, now: int)
    ensures var r := ApplyUsage(rows, steps, now);
      forall i :: 0 <= i < |rows| ==>
        r[i].id == rows[i].id && r[i].userId == rows[i].userId && r[i].discountId == rows[i].discountId
    ensures Keyed(rows) ==> Keyed(ApplyUsage(rows, steps, now))
  {
    ApplyUsageChanges(rows, steps, now);
  }
}
