/**
 * The stacking loop of DiscountManager::apply, as a function of the ordered
 * candidates: which discounts it applies, what each takes off, and where it
 * stops. The manager's Apply method runs the same loop over its rows and is
 * proved equal to Stack; the properties of the loop are proved here, once.
 */
module Stacking {
  import opened Wrappers
  import opened Rounding
  import opened DiscountModel
  import opened UserDiscountModel
  import opened Settings
  import opened Eligibility
  import opened Calculator

  /** One application: the assignment, its discount, what it took off and the running amount after it. */
  datatype Step = Step(assignment: UserDiscount, discount: Discount, amount: real, after: real)

  /** The loop's variables: running amount, total taken off, and the applications so far. */
  datatype Outcome = Outcome(running: real, total: real, steps: seq<Step>)

  /** The loop's state before the first candidate. */
  function Start(original: real): Outcome
  {
    Outcome(original, 0.0, [])
  }

  /** The sum of what the given applications took off. */
  function Taken(steps: seq<Step>): real
  {
    if steps == [] then 0.0 else Taken(steps[..|steps| - 1]) + steps[|steps| - 1].amount
  }

  /**
   * The body of the loop for one candidate, up to the usage check: an error,
   * Ok(None) when the candidate is skipped, or Ok(Some(amount)) for what it
   * takes off. The loop keeps `running` a rounded amount, and then no
   * application takes more than it.
   */
  function StepAmount(cfg: Config, original: real, c: Candidate, running: real, total: real): Result<Option<real>>
  {
    if c.discount.None? then Ok(None)
    else
      var d := c.discount.value;
      match CalculateDiscountAmount(d, running, original, total, cfg.maxPercentage)
      case Err(e) => Err(e)
      case Ok(calculated) =>
        if calculated <= 0.0 then Ok(None)
        else
          var clamped := if Truthy(d.maxDiscountAmount) then Min(calculated, d.maxDiscountAmount.value) else calculated;
          var amount := Round(Min(clamped, running), cfg.precision, cfg.rounding);
          if amount <= 0.0 then Ok(None)
          else if d.maxUsesPerUser.Some? && d.maxUsesPerUser.value != 0
            && c.assignment.usageCount >= d.maxUsesPerUser.value then Err(UsageExceeded)
          else Ok(Some(amount))
  }

  /**
   * What one candidate contributes: a missing discount is skipped; the step
   * fails only on an unsupported type or an exhausted usage limit, and
   * otherwise succeeds; an applied amount is positive, rounded, no more than
   * the (rounded) running amount, and in floor mode within the discount's own
   * maximum and a fixed discount's value; a percentage step under the global
   * cap starts below the cap and takes at most what the cap still allows (in
   * floor mode) or less than one unit of the last place more.
   */
  lemma StepAmountFacts(cfg: Config, original: real, c: Candidate, running: real, total: real)
    ensures var r := StepAmount(cfg, original, c, running, total);
      && (c.discount.None? ==> r == Ok(None))
      && (r.Err? ==>
            && c.discount.Some?
            && (|| (r.error == UnsupportedType && !IsPercentage(c.discount.value) && !IsFixed(c.discount.value))
                || (r.error == UsageExceeded && !HasUsageRemaining(c.assignment, c.discount))))
      && ((&& c.discount.Some?
           && (IsPercentage(c.discount.value) || IsFixed(c.discount.value))
           && HasUsageRemaining(c.assignment, c.discount)) ==> r.Ok?)
    ensures var r := StepAmount(cfg, original, c, running, total);
      r.Ok? && r.value.Some? ==>
        var amount := r.value.value;
        && 0.0 < amount
        && (OnGrid(running, cfg.precision) ==> amount <= running)
        && OnGrid(amount, cfg.precision)
        && (cfg.rounding == Floor && Truthy(c.discount.value.maxDiscountAmount) ==>
              amount <= c.discount.value.maxDiscountAmount.value)
        && (cfg.rounding == Floor && IsFixed(c.discount.value) ==> amount <= c.discount.value.value)
    ensures var r := StepAmount(cfg, original, c, running, total);
      r.Ok? && r.value.Some? && IsPercentage(c.discount.value) && CapOn(cfg.maxPercentage) ==>
        var amount := r.value.value;
        && total < CapAmount(original, cfg.maxPercentage)
        && amount < RemainingCap(original, total, cfg.maxPercentage) + 1.0 / Scale(cfg.precision)
        && (cfg.rounding == Floor ==> amount <= RemainingCap(original, total, cfg.maxPercentage))
  {
    if c.discount.Some? {
      var d := c.discount.value;
      var calculated := CalculateDiscountAmount(d, running, original, total, cfg.maxPercentage);
      if calculated.Ok? && calculated.value > 0.0 {
        var clamped := if Truthy(d.maxDiscountAmount) then Min(calculated.value, d.maxDiscountAmount.value) else calculated.value;
        RoundWithinGrid(Min(clamped, running), running, cfg.precision, cfg.rounding);
      }
    }
  }

  /** The loop stops after applying `d` when `d` is not stackable or the total has reached the global cap. */
  predicate StopsAfter(cfg: Config, original: real, d: Discount, total: real)
  {
    || !d.isStackable
    || (CapOn(cfg.maxPercentage) && total >= CapAmount(original, cfg.maxPercentage))
  }

  /**
   * The loop over the candidates still to visit, from the state `acc`: each
   * applied discount takes its amount off the running amount (rounded again)
   * and is recorded as a step.
   */
  function Stack(cfg: Config, original: real, todo: seq<Candidate>, acc: Outcome): (r: Result<Outcome>)
    ensures r.Ok? ==> acc.steps <= r.value.steps
    ensures r.Ok? && OnGrid(acc.running, cfg.precision) ==> OnGrid(r.value.running, cfg.precision)
    decreases |todo|
  {
    if todo == [] then Ok(acc)
    else
      var c := todo[0];
      match StepAmount(cfg, original, c, acc.running, acc.total)
      case Err(e) => Err(e)
      case Ok(None) => Stack(cfg, original, todo[1..], acc)
      case Ok(Some(amount)) =>
        var next := Advance(cfg, acc, c, amount);
        if StopsAfter(cfg, original, c.discount.value, next.total) then Ok(next)
        else Stack(cfg, original, todo[1..], next)
  }

  /** The loop's state after candidate `c` takes `amount` off: the running amount is rounded again. */
  function Advance(cfg: Config, acc: Outcome, c: Candidate, amount: real): Outcome
    requires c.discount.Some?
  {
    var running := Round(acc.running - amount, cfg.precision, cfg.rounding);
    Outcome(running, acc.total + amount, acc.steps + [Step(c.assignment, c.discount.value, amount, running)])
  }

  /** One turn of the loop when the first candidate applies, as an equation. */
  lemma StackApplied(cfg: Config, original: real, todo: seq<Candidate>, acc: Outcome, amount: real)
    requires todo != [] && StepAmount(cfg, original, todo[0], acc.running, acc.total) == Ok(Some(amount))
    ensures todo[0].discount.Some?
    ensures var next := Advance(cfg, acc, todo[0], amount);
      Stack(cfg, original, todo, acc)
        == if StopsAfter(cfg, original, todo[0].discount.value, next.total) then Ok(next)
           else Stack(cfg, original, todo[1..], next)
  {
  }

  // ---------------------------------------------------------------------------
  // What the loop computes

  /** Rounding an amount no larger than a rounded amount gives no more than it. */
  lemma RoundWithinGrid(y: real, running: real, precision: nat, mode: RoundingMode)
    requires y <= running
    ensures OnGrid(running, precision) ==> Round(y, precision, mode) <= running
  {
    if OnGrid(running, precision) {
      RoundMonotone(y, running, precision, mode);
      RoundOnGrid(running, precision, mode);
    }
  }

  lemma TakenAppend(steps: seq<Step>, s: Step)
    ensures Taken(steps + [s]) == Taken(steps) + s.amount
  {
    assert (steps + [s])[..|steps|] == steps;
  }

  /** Subtracting a rounded amount from a rounded amount is exact: rounding it again changes nothing. */
  lemma ExactSubtraction(cfg: Config, running: real, amount: real)
    requires OnGrid(running, cfg.precision) && OnGrid(amount, cfg.precision)
    ensures Round(running - amount, cfg.precision, cfg.rounding) == running - amount
  {
    GridDifference(running, amount, cfg.precision);
    RoundOnGrid(running - amount, cfg.precision, cfg.rounding);
  }

  /** From a rounded running amount, an applied amount comes off exactly and leaves a non-negative remainder. */
  lemma SubtractStep(cfg: Config, original: real, c: Candidate, acc: Outcome)
    requires OnGrid(acc.running, cfg.precision)
    ensures var r := StepAmount(cfg, original, c, acc.running, acc.total);
      r.Ok? && r.value.Some? ==>
        && 0.0 < r.value.value <= acc.running
        && Round(acc.running - r.value.value, cfg.precision, cfg.rounding) == acc.running - r.value.value
  {
    StepAmountFacts(cfg, original, c, acc.running, acc.total);
    var r := StepAmount(cfg, original, c, acc.running, acc.total);
    if r.Ok? && r.value.Some? {
      ExactSubtraction(cfg, acc.running, r.value.value);
    }
  }

  /** From a rounded running amount, one applied step moves the loop's state by exactly its amount. */
  lemma AdvanceExact(cfg: Config, original: real, c: Candidate, acc: Outcome, amount: real)
    requires OnGrid(acc.running, cfg.precision)
    requires StepAmount(cfg, original, c, acc.running, acc.total) == Ok(Some(amount))
    ensures c.discount.Some?
    ensures var next := Advance(cfg, acc, c, amount);
      && 0.0 < amount <= acc.running
      && next.running == acc.running - amount
      && next.total == acc.total + amount
      && next.steps == acc.steps + [Step(c.assignment, c.discount.value, amount, next.running)]
      && Taken(next.steps) == Taken(acc.steps) + amount
      && OnGrid(next.running, cfg.precision)
  {
    SubtractStep(cfg, original, c, acc);
    var next := Advance(cfg, acc, c, amount);
    TakenAppend(acc.steps, Step(c.assignment, c.discount.value, amount, next.running));
    RoundOnGrid(acc.running - amount, cfg.precision, cfg.rounding);
  }

  /**
   * The running amount falls by exactly what the total rises by, and that is
   * the sum of what the new steps took off; a non-negative running amount
   * never goes below zero.
   */
  lemma {:induction false} StackAccounting(cfg: Config, original: real, todo: seq<Candidate>, acc: Outcome)
    requires OnGrid(acc.running, cfg.precision)
    ensures var r := Stack(cfg, original, todo, acc);
      r.Ok? ==>
        && r.value.total == acc.total + (Taken(r.value.steps) - Taken(acc.steps))
        && r.value.running == acc.running - (Taken(r.value.steps) - Taken(acc.steps))
        && r.value.running <= acc.running
        && (acc.running >= 0.0 ==> r.value.running >= 0.0)
    decreases |todo|, 1
  {
    if todo != [] {
      match StepAmount(cfg, original, todo[0], acc.running, acc.total)
      case Err(_) =>
      case Ok(None) =>
        StackAccounting(cfg, original, todo[1..], acc);
      case Ok(Some(amount)) =>
        AppliedAccounting(cfg, original, todo, acc, amount);
    }
  }

  /** StackAccounting when the first candidate applies. */
  lemma {:induction false} AppliedAccounting(cfg: Config, original: real, todo: seq<Candidate>, acc: Outcome,
                                             amount: real)
    requires OnGrid(acc.running, cfg.precision)
    requires todo != [] && StepAmount(cfg, original, todo[0], acc.running, acc.total) == Ok(Some(amount))
    ensures var r := Stack(cfg, original, todo, acc);
      r.Ok? ==>
        && r.value.total == acc.total + (Taken(r.value.steps) - Taken(acc.steps))
        && r.value.running == acc.running - (Taken(r.value.steps) - Taken(acc.steps))
        && r.value.running <= acc.running
        && (acc.running >= 0.0 ==> r.value.running >= 0.0)
    decreases |todo|, 0
  {
    AdvanceExact(cfg, original, todo[0], acc, amount);
    StackApplied(cfg, original, todo, acc, amount);
    var next := Advance(cfg, acc, todo[0], amount);
    if !StopsAfter(cfg, original, todo[0].discount.value, next.total) {
      StackAccounting(cfg, original, todo[1..], next);
      AccountingChain(acc, next, amount, Stack(cfg, original, todo[1..], next));
    }
  }

  /** The accounting facts from `next` on carry back to `acc` over one step taking `amount`. */
  lemma AccountingChain(acc: Outcome, next: Outcome, amount: real, r: Result<Outcome>)
    requires 0.0 < amount <= acc.running
    requires next.running == acc.running - amount && next.total == acc.total + amount
    requires Taken(next.steps) == Taken(acc.steps) + amount
    requires r.Ok? ==>
      && r.value.total == next.total + (Taken(r.value.steps) - Taken(next.steps))
      && r.value.running == next.running - (Taken(r.value.steps) - Taken(next.steps))
      && r.value.running <= next.running
      && (next.running >= 0.0 ==> r.value.running >= 0.0)
    ensures r.Ok? ==>
      && r.value.total == acc.total + (Taken(r.value.steps) - Taken(acc.steps))
      && r.value.running == acc.running - (Taken(r.value.steps) - Taken(acc.steps))
      && r.value.running <= acc.running
      && (acc.running >= 0.0 ==> r.value.running >= 0.0)
  {
  }

  /**
   * The loop fails only on a discount of an unsupported type when every
   * candidate still has usage left, and never fails when, besides, every
   * discount is a percentage or a fixed amount.
   */
  lemma {:induction false} StackErrors(cfg: Config, original: real, todo: seq<Candidate>, acc: Outcome)
    requires forall c :: c in todo ==> HasUsageRemaining(c.assignment, c.discount)
    ensures var r := Stack(cfg, original, todo, acc);
      r.Err? ==>
        && r.error == UnsupportedType
        && exists c :: c in todo && c.discount.Some? && !IsPercentage(c.discount.value) && !IsFixed(c.discount.value)
    ensures (forall c :: c in todo && c.discount.Some? ==> IsPercentage(c.discount.value) || IsFixed(c.discount.value))
      ==> Stack(cfg, original, todo, acc).Ok?
    decreases |todo|
  {
    if todo != [] {
      var c := todo[0];
      assert forall x :: x in todo[1..] ==> x in todo;
      StepAmountFacts(cfg, original, c, acc.running, acc.total);
      match StepAmount(cfg, original, c, acc.running, acc.total)
      case Err(_) =>
      case Ok(None) =>
        StackErrors(cfg, original, todo[1..], acc);
      case Ok(Some(amount)) =>
        var next := Advance(cfg, acc, c, amount);
        if !StopsAfter(cfg, original, c.discount.value, next.total) {
          StackErrors(cfg, original, todo[1..], next);
        }
    }
  }

  /**
   * The steps from index `from` on come from candidates in `todo`, each with
   * its own discount, and take positive amounts; all but the last are
   * stackable; and when the candidates' assignments are distinct, so are
   * these steps' assignments.
   */
  ghost predicate StepsFrom(todo: seq<Candidate>, from: nat, steps: seq<Step>)
  {
    && (forall i :: from <= i < |steps| ==>
          Candidate(steps[i].assignment, Some(steps[i].discount)) in todo && steps[i].amount > 0.0)
    && (forall i :: from <= i < |steps| - 1 ==> steps[i].discount.isStackable)
    && (DistinctIds(todo) ==>
          forall i, j :: from <= i < j < |steps| ==> steps[i].assignment.id != steps[j].assignment.id)
  }

  /** What the loop adds to the steps is drawn from the candidates, in the way StepsFrom says. */
  lemma {:induction false} StackSteps(cfg: Config, original: real, todo: seq<Candidate>, acc: Outcome)
    ensures var r := Stack(cfg, original, todo, acc);
      r.Ok? ==> StepsFrom(todo, |acc.steps|, r.value.steps)
    decreases |todo|, 1
  {
    if todo != [] {
      match StepAmount(cfg, original, todo[0], acc.running, acc.total)
      case Err(_) =>
      case Ok(None) =>
        StackSteps(cfg, original, todo[1..], acc);
        var r := Stack(cfg, original, todo[1..], acc);
        if r.Ok? {
          StepsFromTail(todo, acc.steps, acc.steps, r.value.steps);
        }
      case Ok(Some(amount)) =>
        AppliedSteps(cfg, original, todo, acc, amount);
    }
  }

  /** StackSteps when the first candidate applies. */
  lemma {:induction false} AppliedSteps(cfg: Config, original: real, todo: seq<Candidate>, acc: Outcome, amount: real)
    requires todo != [] && StepAmount(cfg, original, todo[0], acc.running, acc.total) == Ok(Some(amount))
    ensures var r := Stack(cfg, original, todo, acc);
      r.Ok? ==> StepsFrom(todo, |acc.steps|, r.value.steps)
    decreases |todo|, 0
  {
    StepAmountFacts(cfg, original, todo[0], acc.running, acc.total);
    StackApplied(cfg, original, todo, acc, amount);
    var next := Advance(cfg, acc, todo[0], amount);
    if !StopsAfter(cfg, original, todo[0].discount.value, next.total) {
      StackSteps(cfg, original, todo[1..], next);
      var r := Stack(cfg, original, todo[1..], next);
      if r.Ok? {
        StepsFromTail(todo, acc.steps, next.steps, r.value.steps);
      }
    }
  }

  /**
   * The inductive step of StackSteps: when `next` extends `acc` by nothing
   * or by one stackable step drawn from the first candidate, steps the tail
   * adds after `next` make steps added after `acc` drawn from all candidates.
   */
  lemma StepsFromTail(todo: seq<Candidate>, acc: seq<Step>, next: seq<Step>, steps: seq<Step>)
    requires todo != []
    requires acc <= next <= steps && |next| <= |acc| + 1
    requires |next| == |acc| + 1 ==>
      && Candidate(next[|acc|].assignment, Some(next[|acc|].discount)) == todo[0]
      && next[|acc|].discount.isStackable
      && next[|acc|].amount > 0.0
    requires StepsFrom(todo[1..], |next|, steps)
    ensures StepsFrom(todo, |acc|, steps)
  {
    assert forall i :: |acc| <= i < |next| ==> steps[i] == next[i];
    assert forall x :: x in todo[1..] ==> x in todo;
    if DistinctIds(todo) {
      assert DistinctIds(todo[1..]) by {
        forall i, j | 0 <= i < j < |todo[1..]|
          ensures todo[1..][i].assignment.id != todo[1..][j].assignment.id
        {
          assert todo[1..][i] == todo[i + 1] && todo[1..][j] == todo[j + 1];
        }
      }
      forall i, j | |acc| <= i < j < |steps|
        ensures steps[i].assignment.id != steps[j].assignment.id
      {
        if i < |next| {
          var k :| 0 <= k < |todo[1..]| && todo[1..][k] == Candidate(steps[j].assignment, Some(steps[j].discount));
          assert todo[k + 1].assignment.id != todo[0].assignment.id;
        }
      }
    }
  }

  /**
   * The steps from |acc.steps| on, as the loop leaves them behind: each
   * records as `after` the running amount before it less what it took off,
   * and every step but the last left the loop running, so it was stackable
   * and the total after it, acc.total plus what the running amount has
   * fallen by, was still below the global cap when that cap is on.
   */
  ghost predicate TraceFrom(cfg: Config, original: real, acc: Outcome, steps: seq<Step>)
  {
    var from := |acc.steps|;
    && (from < |steps| ==> steps[from].after == acc.running - steps[from].amount)
    && (forall i :: from < i < |steps| ==> steps[i].after == steps[i - 1].after - steps[i].amount)
    && (forall i :: from <= i < |steps| - 1 ==>
          !StopsAfter(cfg, original, steps[i].discount, acc.total + (acc.running - steps[i].after)))
  }

  /**
   * From a rounded running amount, the loop leaves the trace TraceFrom
   * describes, and every `after` it records lies between the final running
   * amount and the running amount it started from.
   */
  lemma {:induction false} StackTrace(cfg: Config, original: real, todo: seq<Candidate>, acc: Outcome)
    requires OnGrid(acc.running, cfg.precision)
    ensures var r := Stack(cfg, original, todo, acc);
      r.Ok? ==>
        && TraceFrom(cfg, original, acc, r.value.steps)
        && forall i :: |acc.steps| <= i < |r.value.steps| ==>
             r.value.running <= r.value.steps[i].after < acc.running
    decreases |todo|, 1
  {
    if todo != [] {
      match StepAmount(cfg, original, todo[0], acc.running, acc.total)
      case Err(_) =>
      case Ok(None) =>
        StackTrace(cfg, original, todo[1..], acc);
      case Ok(Some(amount)) =>
        AppliedTrace(cfg, original, todo, acc, amount);
    }
  }

  /** StackTrace when the first candidate applies. */
  lemma {:induction false} AppliedTrace(cfg: Config, original: real, todo: seq<Candidate>, acc: Outcome, amount: real)
    requires OnGrid(acc.running, cfg.precision)
    requires todo != [] && StepAmount(cfg, original, todo[0], acc.running, acc.total) == Ok(Some(amount))
    ensures var r := Stack(cfg, original, todo, acc);
      r.Ok? ==>
        && TraceFrom(cfg, original, acc, r.value.steps)
        && forall i :: |acc.steps| <= i < |r.value.steps| ==>
             r.value.running <= r.value.steps[i].after < acc.running
    decreases |todo|, 0
  {
    AdvanceExact(cfg, original, todo[0], acc, amount);
    StackApplied(cfg, original, todo, acc, amount);
    var next := Advance(cfg, acc, todo[0], amount);
    if !StopsAfter(cfg, original, todo[0].discount.value, next.total) {
      StackTrace(cfg, original, todo[1..], next);
      StackAccounting(cfg, original, todo[1..], next);
      var r := Stack(cfg, original, todo[1..], next);
      if r.Ok? {
        TraceChain(cfg, original, acc, next, amount, r.value);
      }
    }
  }

  /** The trace from `next` on carries back to `acc` over one step that took `amount` and did not stop the loop. */
  lemma TraceChain(cfg: Config, original: real, acc: Outcome, next: Outcome, amount: real, out: Outcome)
    requires 0.0 < amount
    requires |next.steps| == |acc.steps| + 1 && next.steps <= out.steps
    requires next.running == acc.running - amount && next.total == acc.total + amount
    requires next.steps[|acc.steps|].after == next.running && next.steps[|acc.steps|].amount == amount
    requires !StopsAfter(cfg, original, next.steps[|acc.steps|].discount, next.total)
    requires out.running <= next.running
    requires TraceFrom(cfg, original, next, out.steps)
    requires forall i :: |next.steps| <= i < |out.steps| ==> out.running <= out.steps[i].after < next.running
    ensures TraceFrom(cfg, original, acc, out.steps)
    ensures forall i :: |acc.steps| <= i < |out.steps| ==> out.running <= out.steps[i].after < acc.running
  {
    assert out.steps[|acc.steps|] == next.steps[|acc.steps|];
  }

  /**
   * With the global cap on and only percentage discounts to visit, the
   * total never passes the cap by a unit of the last decimal place or more,
   * and in floor mode never passes it at all.
   */
  lemma {:induction false} PercentageStackWithinCap(cfg: Config, original: real, todo: seq<Candidate>, acc: Outcome)
    requires CapOn(cfg.maxPercentage)
    requires forall c :: c in todo && c.discount.Some? ==> IsPercentage(c.discount.value)
    requires acc.total < CapAmount(original, cfg.maxPercentage) + 1.0 / Scale(cfg.precision)
    requires cfg.rounding == Floor ==> acc.total <= CapAmount(original, cfg.maxPercentage)
    ensures var r := Stack(cfg, original, todo, acc);
      r.Ok? ==>
        && r.value.total < CapAmount(original, cfg.maxPercentage) + 1.0 / Scale(cfg.precision)
        && (cfg.rounding == Floor ==> r.value.total <= CapAmount(original, cfg.maxPercentage))
    decreases |todo|, 1
  {
    if todo != [] {
      assert forall x :: x in todo[1..] ==> x in todo;
      match StepAmount(cfg, original, todo[0], acc.running, acc.total)
      case Err(_) =>
      case Ok(None) =>
        PercentageStackWithinCap(cfg, original, todo[1..], acc);
      case Ok(Some(amount)) =>
        AppliedWithinCap(cfg, original, todo, acc, amount);
    }
  }

  /** PercentageStackWithinCap when the first candidate applies. */
  lemma {:induction false} AppliedWithinCap(cfg: Config, original: real, todo: seq<Candidate>, acc: Outcome,
                                            amount: real)
    requires CapOn(cfg.maxPercentage)
    requires forall c :: c in todo && c.discount.Some? ==> IsPercentage(c.discount.value)
    requires acc.total < CapAmount(original, cfg.maxPercentage) + 1.0 / Scale(cfg.precision)
    requires cfg.rounding == Floor ==> acc.total <= CapAmount(original, cfg.maxPercentage)
    requires todo != [] && StepAmount(cfg, original, todo[0], acc.running, acc.total) == Ok(Some(amount))
    ensures var r := Stack(cfg, original, todo, acc);
      r.Ok? ==>
        && r.value.total < CapAmount(original, cfg.maxPercentage) + 1.0 / Scale(cfg.precision)
        && (cfg.rounding == Floor ==> r.value.total <= CapAmount(original, cfg.maxPercentage))
    decreases |todo|, 0
  {
    assert todo[0] in todo;
    StepAmountFacts(cfg, original, todo[0], acc.running, acc.total);
    StackApplied(cfg, original, todo, acc, amount);
    var next := Advance(cfg, acc, todo[0], amount);
    if !StopsAfter(cfg, original, todo[0].discount.value, next.total) {
      assert forall x :: x in todo[1..] ==> x in todo;
      PercentageStackWithinCap(cfg, original, todo[1..], next);
    }
  }
}
