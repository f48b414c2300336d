# User discounts: the discount engine in Dafny

This project models the discount engine of a Laravel package that assigns
discounts to users and applies them to order amounts
(`DiscountManager` in src/Services/DiscountManager.php). The leaf rules it
relies on come from the two Eloquent models, src/Models/Discount.php and
src/Models/UserDiscount.php. The engine provides four operations:

- `assign` and `revoke` run a small state machine per (user, discount) pair:
  assigned, revoked, assigned again.
- `eligibleFor` lists the user's assignments that can be used now for an
  order of a given amount.
- `apply` sorts the eligible assignments into stacking order. It then walks
  them while keeping a running amount and a total taken off. Each applied
  discount gets one more use and one 'applied' audit row.

How the model is built:

- **Tables.** The `DiscountManager` class holds two tables. `rows` is the
  user_discounts table in key order: a row's key is its position, and the
  unique index on (user_id, discount_id) holds. `audits` is the append-only
  discount_audits log. Both invariants are the class's `Valid()`.
- **Parameters.** The discounts table is read only, so it is a parameter
  (`catalog`). So are the clock (`now`, whole seconds) and the configuration
  (`Settings.Config`, with closed enumerations for the string options).
- **Transactions.** Each operation runs in one database transaction, so an
  error leaves both tables exactly as they were. `Apply` gets there by running
  the loop on copies and committing them only on success. `Assign` and
  `Revoke` detect every error before their first write and then update the
  tables in place.
- **The loop as a function.** `Stacking.Stack` is a pure function that
  describes the `apply` loop. `Manager.Checkout` describes all of `apply`.
  The imperative `Apply`/`RunLoop` methods are proved equal to it, and the
  properties of `apply` are proved once, about the function (modules
  `Stacking` and `ApplyFacts`).
- **Amounts and rounding.** Amounts are exact reals. `roundAmount` is modelled
  for all three modes at any non-negative precision (module `Rounding`).
- **Tests.** The three unit tests in tests/Unit/DiscountManagerTest.php are
  stated twice with concrete values. Module `Scenarios` proves their outcomes
  as lemmas about tables written out to match the state each test reaches.
  Module `ManagerRuns` drives a `DiscountManager` object from its constructor
  through the same calls to `Assign`, `Revoke`, `Apply` and `EligibleFor`, and
  its methods' postconditions are the tests' assertions.

The code behaves as follows where a reader might expect otherwise, and the
model keeps that behaviour:

- **The global cap.** `caps.max_percentage` clamps percentage steps only.
  A fixed step can carry the total past it: `Calculator.FixedStepIgnoresCap`
  takes 80 off 100 under a 50% cap. So the model proves the cap bound for
  stacks of percentage discounts only (`Stacking.PercentageStackWithinCap`),
  not as a bound on every stack.
- **The zero threshold.** The code reads `max_discount_amount`,
  `max_uses_per_user` and `min_order_value` for truthiness, so a value of 0
  means "no limit" there. `hasUsageRemaining` and `scopeEligible` test for
  null instead. Both readings are modelled as written.
- **The usage check.** The re-check of the usage limit inside the loop can
  never fire. Eligibility has already removed every assignment without usage
  left (`ApplyFacts.CheckoutErrors`).
- **The assignment table.** It is a sequence in key order rather than a map,
  so the order queries return rows in, and with it the order among stacking
  ties, is determined.

## Model

| member | source | states |
|---|---|---|
| Rounding.Round | src/Services/DiscountManager.php:342-352 | the rounded amount is on the 10^-precision grid and within one unit of the last place of the input; floor never rounds up and ceil never rounds down; half-up lands within half a unit, ties going away from zero |
| Rounding.RoundOnGrid | src/Services/DiscountManager.php:342-352 | an amount already on the grid comes back unchanged in every mode |
| Rounding.RoundIdempotent | src/Services/DiscountManager.php:342-352 | rounding twice with the same precision and mode is rounding once |
| Rounding.RoundMonotone | src/Services/DiscountManager.php:342-352 | rounding never reverses the order of two amounts |
| Rounding.GridDifference | src/Services/DiscountManager.php:184 | the difference of two rounded amounts is itself a rounded amount |
| Calculator.CalculateDiscountAmount | src/Services/DiscountManager.php:298-326 | it fails, with an unsupported-type error, exactly when the type is neither percentage nor fixed; a fixed discount takes min(value, current); a percentage takes one of its share, the remaining global cap or its own maximum, and at most each of those that is in force |
| Calculator.PercentageStepWithinCap | src/Services/DiscountManager.php:305-318 | under the global cap, a percentage step never carries the total past the larger of the previous total and the cap |
| Calculator.FixedStepIgnoresCap | src/Services/DiscountManager.php:321-323 | a fixed step is not clamped by the global cap: 80 off 100 under a 50% cap |
| Catalog.Upper | src/Services/DiscountManager.php:227 | upper-casing keeps the length, leaves no lower-case letter, and returns a code without lower-case letters unchanged |
| Catalog.UpperIdempotent | src/Services/DiscountManager.php:227 | upper-casing an upper-cased code changes nothing |
| Catalog.UpperIgnoresCase | src/Services/DiscountManager.php:227 | two codes that differ only in letter case upper-case to the same code |
| Catalog.FirstIndex | src/Services/DiscountManager.php:227-230 | the position of the first matching row: it matches and no row before it does, or no row matches at all |
| Catalog.First | src/Services/DiscountManager.php:227-230 | first(): a matching row with no matching row before it in key order; None iff no row matches |
| Catalog.FirstWithCode | src/Services/DiscountManager.php:227-230 | the first discount in key order with exactly that code; None iff no discount has it |
| Catalog.FindDiscountByCode | src/Services/DiscountManager.php:225-238 | the upper-cased code wins when some discount has it, otherwise the code as given, each time the first such row in key order; NotFound iff neither matches |
| Catalog.CaseInsensitiveLookup | src/Services/DiscountManager.php:225-238 | when a discount's code is the upper-cased form, every spelling that differs only in letter case finds the same discount |
| Catalog.FindById | src/Models/UserDiscount.php:40-43 | an assignment's discount is the row with its discount key; None iff there is none |
| DiscountModel.HasUsageCap | src/Models/Discount.php:70-73 | a per-user usage limit is set; UserDiscountModel.CappedUsageRemaining and UncappedHasUsageRemaining state what it decides |
| DiscountModel.IsPercentage | src/Models/Discount.php:75-78 | the type is exactly "percentage"; TypeTestsExclusive states it never holds with IsFixed |
| DiscountModel.IsFixed | src/Models/Discount.php:80-83 | the type is exactly "fixed"; TypeTestsExclusive states it never holds with IsPercentage |
| DiscountModel.InEligibleScope | src/Models/Discount.php:44-58 | the eligible scope's condition on one discount; ScopeEligible keeps exactly the discounts meeting it and EligibleScopeUpwardClosed states it is closed under larger amounts |
| DiscountModel.TypeTestsExclusive | src/Models/Discount.php:75-83 | no discount is both a percentage and a fixed amount |
| DiscountModel.ScopeActive | src/Models/Discount.php:39-42 | keeps exactly the discounts whose active switch is on |
| DiscountModel.ScopeEligible | src/Models/Discount.php:44-58 | keeps exactly the discounts with no start or start ≤ now, no expiry or expiry ≥ now, and no minimum or minimum ≤ amount |
| DiscountModel.EligibleScopeUpwardClosed | src/Models/Discount.php:55-57 | a discount in the eligible scope for an amount stays in it for every larger amount |
| Eligibility.IsCurrentlyActive | src/Services/DiscountManager.php:240-257 | the engine's activity check; ActiveWindow states it both ways and ActiveBetween that it holds on an interval |
| Eligibility.MeetsOrderValue | src/Services/DiscountManager.php:259-266 | the engine's minimum-order check, with 0 read as no minimum; OrderValueUpwardClosed and ZeroMinimumIgnoredForNegativeAmount state its behaviour |
| Eligibility.Qualifies | src/Services/DiscountManager.php:135-142 | the filter of apply and eligibleFor on one candidate; ApplyFacts.EligibleMember and Manager.Eligible state what passing it means |
| Eligibility.ActiveWindow | src/Services/DiscountManager.php:240-257 | isCurrentlyActive holds iff the switch is on and now lies in the window, both ends inclusive, an absent bound imposing nothing |
| Eligibility.ActiveBetween | src/Services/DiscountManager.php:240-257 | a discount active at two instants is active at every instant between them |
| Eligibility.OrderValueUpwardClosed | src/Services/DiscountManager.php:259-266 | an amount that meets the minimum order value keeps meeting it as it grows |
| Eligibility.EngineAgreesWithScopes | src/Services/DiscountManager.php:240-266 | for a non-negative amount the engine's two checks accept exactly what the Discount active and eligible scopes accept together |
| Eligibility.ZeroMinimumIgnoredForNegativeAmount | src/Services/DiscountManager.php:259-266 | a minimum of exactly 0 is read as no minimum, so a negative amount meets it though the eligible scope would reject it |
| UserDiscountModel.IsRevoked | src/Models/UserDiscount.php:50-53 | a revocation time is set; ScopeActive keeps exactly the rows for which it fails |
| UserDiscountModel.HasUsageRemaining | src/Models/UserDiscount.php:55-64 | usage is left; UncappedHasUsageRemaining, CappedUsageRemaining, ZeroCapNeverRemaining and UsageRemainingAntitone state when |
| UserDiscountModel.ScopeActive | src/Models/UserDiscount.php:30-33 | keeps exactly the unrevoked assignments, in key order, and all of them when none is revoked |
| UserDiscountModel.ScopeForUser | src/Models/UserDiscount.php:35-38 | keeps exactly the user's assignments, in key order, and all of them when all are the user's |
| UserDiscountModel.UncappedHasUsageRemaining | src/Models/UserDiscount.php:55-61 | without a usage limit, or without a loaded discount, usage always remains |
| UserDiscountModel.CappedUsageRemaining | src/Models/UserDiscount.php:55-64 | with a limit, usage remains iff the count is below the limit |
| UserDiscountModel.ZeroCapNeverRemaining | src/Models/UserDiscount.php:55-64 | a limit of 0 makes an assignment permanently ineligible |
| UserDiscountModel.UsageRemainingAntitone | src/Models/UserDiscount.php:55-64 | more uses can only take remaining usage away |
| StackingOrder.SortValue | src/Services/DiscountManager.php:289-296 | the integer a candidate is sorted by: its discount's priority (0 without a discount), its assignment time, which the schema requires, or its usage count; OrderedByKeyThenCode states the result is ordered by it |
| StackingOrder.Precedes | src/Services/DiscountManager.php:273-286 | the comparator: key first in the configured direction, then code ascending; PrecedesTotal and PrecedesTransitive state it is a total preorder |
| StackingOrder.Insert | src/Services/DiscountManager.php:273-286 | inserting into a sorted sequence gives a sorted sequence with one more occurrence of the element |
| StackingOrder.OrderDiscounts | src/Services/DiscountManager.php:268-287 | the result is a permutation of the input, sorted by the comparator |
| StackingOrder.CodeLeTotal | src/Services/DiscountManager.php:278 | any two codes compare one way or the other |
| StackingOrder.CodeLeReflexive | src/Services/DiscountManager.php:278 | a code compares at most equal to itself |
| StackingOrder.CodeLeTransitive | src/Services/DiscountManager.php:278 | the code comparison is transitive |
| StackingOrder.CodeLeAntisymmetric | src/Services/DiscountManager.php:278 | two codes that compare both ways are equal |
| StackingOrder.PrecedesTotal | src/Services/DiscountManager.php:273-286 | any two candidates compare one way or the other |
| StackingOrder.PrecedesTransitive | src/Services/DiscountManager.php:273-286 | the comparator is transitive, so it is a total preorder |
| StackingOrder.OrderedByKeyThenCode | src/Services/DiscountManager.php:268-296 | in the result, keys never increase (desc) or decrease (asc), and equal keys appear in ascending code order in both directions |
| StackingOrder.SortedArrangementUnique | src/Services/DiscountManager.php:273-286 | two sorted arrangements of the same candidates are equal when codes are unique among them |
| StackingOrder.OrderIndependentOfInput | src/Services/DiscountManager.php:268-287 | with unique codes, the stacking order does not depend on the order the query returned the candidates in |
| StackingOrder.OrderKeepsIdsDistinct | src/Services/DiscountManager.php:268-287 | sorting keeps the assignments pairwise distinct |
| Stacking.StepAmount | src/Services/DiscountManager.php:151-182 | one turn of the loop up to the usage check; its properties are stated by StepAmountFacts |
| Stacking.Advance | src/Services/DiscountManager.php:184-185 | the state after one application; SubtractStep states the amount comes off the running amount exactly and AccountingChain that the totals stay balanced over it |
| Stacking.StopsAfter | src/Services/DiscountManager.php:208-218 | the two exits of the loop; StackTrace states that every step but the last was stackable and left the total below the global cap |
| Stacking.Stack | src/Services/DiscountManager.php:150-219 | the loop only appends steps, and a rounded running amount stays rounded |
| Stacking.StepAmountFacts | src/Services/DiscountManager.php:151-182 | a missing discount is skipped; a step fails only on an unsupported type or an exhausted limit, and succeeds otherwise; an applied amount is positive, rounded and at most the running amount, within the discount's maximum and a fixed value in floor mode, and within the remaining global cap for a percentage step |
| Stacking.ExactSubtraction | src/Services/DiscountManager.php:184 | subtracting a rounded amount from a rounded amount needs no rounding |
| Stacking.SubtractStep | src/Services/DiscountManager.php:173-184 | an applied amount is positive, at most the running amount, and comes off it exactly |
| Stacking.StackAccounting | src/Services/DiscountManager.php:146-219 | the total rises by exactly what the running amount falls by, which is the sum of the applied amounts; the running amount never rises and never goes below zero from a non-negative start |
| Stacking.AppliedAccounting | src/Services/DiscountManager.php:184-219 | StackAccounting when the first candidate is applied |
| Stacking.AccountingChain | src/Services/DiscountManager.php:184-185 | the accounting facts carry back over one applied step |
| Stacking.StackErrors | src/Services/DiscountManager.php:157-182 | with usage left on every candidate, the loop fails only on a discount of unsupported type, and never fails when every discount is a percentage or fixed |
| Stacking.StackSteps | src/Services/DiscountManager.php:150-219 | every new step comes from a candidate, takes a positive amount, and all but the last are stackable; no assignment is applied twice (the global-cap exit is StackTrace's) |
| Stacking.AppliedSteps | src/Services/DiscountManager.php:184-210 | StackSteps when the first candidate is applied |
| Stacking.StepsFromTail | src/Services/DiscountManager.php:150-210 | the steps property carries back from the remaining candidates to all of them |
| Stacking.StackTrace | src/Services/DiscountManager.php:184-218 | each new step records as its final amount the running amount before it less what it took off; every step but the last left the loop running, so it was stackable and the total after it was below the global cap; each recorded final amount lies between the loop's final amount and the amount it started from |
| Stacking.AppliedTrace | src/Services/DiscountManager.php:184-218 | StackTrace when the first candidate is applied |
| Stacking.TraceChain | src/Services/DiscountManager.php:184-218 | the trace facts carry back over one applied step that did not stop the loop |
| Stacking.PercentageStackWithinCap | src/Services/DiscountManager.php:212-218 | with only percentage discounts under the global cap, the total stays below the cap plus one unit of the last place, and at most the cap in floor mode |
| Stacking.AppliedWithinCap | src/Services/DiscountManager.php:305-318 | PercentageStackWithinCap when the first candidate is applied |
| Manager.FindAssignment | src/Services/DiscountManager.php:37-41 | the position of a row for the (user, discount) pair; None iff there is no such row |
| Manager.WithDiscounts | src/Services/DiscountManager.php:128-133 | pairs each assignment, in order, with its discount as loaded |
| Manager.Loaded | src/Services/DiscountManager.php:128-133 | exactly the user's unrevoked assignments, each with its own discount, in key order |
| Manager.Eligible | src/Services/DiscountManager.php:135-142 | exactly the loaded candidates that pass the filter; no assignment twice |
| Manager.EligibleKeepsAll | src/Services/DiscountManager.php:135-142 | when every loaded candidate passes, the filter keeps all of them, in order |
| Manager.Checkout | src/Services/DiscountManager.php:121-223 | the final running amount of apply is rounded |
| Manager.ApplyUsage | src/Services/DiscountManager.php:187-189 | the saves of all applications in order; ApplyUsageChanges, ApplyUsageBumps and ApplyUsageUntouched state which rows change and how |
| Manager.UseRow | src/Services/DiscountManager.php:187-189 | saving one application gives its row the loaded count plus one and the time of use, and leaves every other row as it was |
| Manager.ApplyUsageChanges | src/Services/DiscountManager.php:187-189 | only usage and time of use change, only in the rows of applications, and a changed row has its loaded count plus one and now |
| Manager.ApplyUsageBumps | src/Services/DiscountManager.php:187-189 | when the applications use distinct rows of the table as loaded, every one of those rows ends up with exactly one more use at now |
| Manager.ApplyUsageBumpAt | src/Services/DiscountManager.php:187-189 | ApplyUsageBumps for one application |
| Manager.ApplyUsageUntouched | src/Services/DiscountManager.php:187-189 | a row no application names is left as it was |
| Manager.AppliedEntry | src/Services/DiscountManager.php:328-340 | the audit row recordAudit writes for one application; AuditsOfEntries states its fields |
| Manager.AuditsOf | src/Services/DiscountManager.php:191-197 | one audit row per application |
| Manager.AuditsOfEntries | src/Services/DiscountManager.php:191-197 | each audit row is an 'applied' row for the user and the discount, recording the original amount, what the step took off and what was left |
| Manager.InsertKeyed | database/migrations/2025_09_26_000001_create_user_discounts_table.php:21 | a new row for an unassigned pair, under the next key, keeps the keys and the unique pair; the lookup then finds it |
| Manager.UpdateKeyed | database/migrations/2025_09_26_000001_create_user_discounts_table.php:21 | updating a row without touching its key or pair keeps both constraints; the lookup still finds it |
| Manager.DiscountManager.constructor | database/migrations/2025_09_26_000001_create_user_discounts_table.php:11-23 | both tables start empty and valid |
| Manager.DiscountManager.Assign | src/Services/DiscountManager.php:25-64 | NotFound and NotEligible leave the tables as they were; an active assignment is left as it is with no audit; a revoked one is reinstated keeping its usage, and a missing one created with no uses, each with one 'assigned' audit row; afterwards the pair has an unrevoked row |
| Manager.DiscountManager.Revoke | src/Services/DiscountManager.php:66-94 | NotFound (code or row) leaves the tables as they were; a revoked row is left as it is; otherwise it is stamped revoked at now with one 'revoked' audit row; afterwards the pair's row is revoked |
| Manager.DiscountManager.EligibleFor | src/Services/DiscountManager.php:96-119 | exactly the user's unrevoked assignments whose discount loaded, is active now, meets the amount and has usage left |
| Manager.DiscountManager.Apply | src/Services/DiscountManager.php:121-223 | on an error both tables are unchanged; otherwise the result is the loop's rounded running amount, the rows are those the applications' saves leave (each applied row with exactly one more use, by ApplyFacts.AppliedRows) and one 'applied' audit row is appended per application, in order |
| Manager.RunLoop | src/Services/DiscountManager.php:146-221 | the loop computes what Stack describes, on copies of the two tables |
| Manager.DiscountFor | src/Services/DiscountManager.php:151-182 | one turn of the loop up to the usage check computes what StepAmount describes |
| Manager.Record | src/Services/DiscountManager.php:187-197 | one application's save and audit row extend the tables by exactly that application |
| Manager.TablesAppend | src/Services/DiscountManager.php:187-197 | the tables after n+1 applications are those after n with one more save and one more audit row |
| Manager.LoopTurn | src/Services/DiscountManager.php:150-219 | one turn at position i skips, fails, stops or continues as the loop body says |
| Manager.StackUnfold | src/Services/DiscountManager.php:150-219 | one turn of the loop, as Stack takes it |
| Manager.ApplyKeepsValid | src/Services/DiscountManager.php:187-189 | recording uses changes no key and no pair, so the table's constraints survive apply |
| ApplyFacts.CheckoutAccounting | src/Services/DiscountManager.php:146-221 | the final amount is the rounded order amount less everything taken off; it is rounded, at most the rounded order amount, and not negative for a non-negative order |
| ApplyFacts.StartAccounting | src/Services/DiscountManager.php:146-221 | CheckoutAccounting for the loop run from its start |
| ApplyFacts.OrderedMembers | src/Services/DiscountManager.php:268-287 | sorting neither adds nor drops candidates |
| ApplyFacts.CheckoutErrors | src/Services/DiscountManager.php:135-182 | apply fails only with an unsupported-type error caused by an eligible discount of another type, and succeeds when there is none; the usage check in the loop never fires |
| ApplyFacts.CheckoutSteps | src/Services/DiscountManager.php:135-219 | every application comes from an eligible assignment with its own discount and takes a positive amount; all but the last are stackable; no assignment is applied twice (the global-cap exit is CheckoutTrace's) |
| ApplyFacts.CheckoutTrace | src/Services/DiscountManager.php:184-218 | the applications satisfy Traced: each audit row's final amount is the amount before it less what it took off, starting from the rounded order amount, so the final amounts fall strictly, each is the order amount less the sum taken so far, and none is below the result; under the global cap every application but the last left the total below the cap |
| ApplyFacts.StartTrace | src/Services/DiscountManager.php:146-218 | CheckoutTrace for the loop run from its start |
| ApplyFacts.TraceFromStart | src/Services/DiscountManager.php:184-218 | the loop's trace from its start gives Traced |
| ApplyFacts.TracePrefixTaken | src/Services/DiscountManager.php:184-185 | along such a trace, each final amount is the start less the sum taken through that step |
| ApplyFacts.TracePrefixAt | src/Services/DiscountManager.php:184-185 | TracePrefixTaken at one step |
| ApplyFacts.AppliedRows | src/Services/DiscountManager.php:187-189 | each row is unchanged, or is one of the user's unrevoked assignments with usage left that got exactly one more use at now; and the row of every application does get exactly that one more use |
| ApplyFacts.StepsFromEligible | src/Services/DiscountManager.php:135-142 | applications drawn from the eligible candidates use the user's unrevoked rows with usage left |
| ApplyFacts.EligibleMember | src/Services/DiscountManager.php:135-142 | an eligible candidate is an unrevoked assignment of the user with its own discount and usage left |
| ApplyFacts.UsageRows | src/Services/DiscountManager.php:187-189 | AppliedRows for any applications drawn from distinct rows of that kind |
| ApplyFacts.ApplyKeepsWithinCaps | src/Services/DiscountManager.php:180-189 | apply never takes an assignment past its discount's usage limit |
| ApplyFacts.BumpsWithinCaps | src/Models/UserDiscount.php:55-64 | one more use of rows that had usage left keeps every row within its limit |
| Scenarios.StackedDiscounts | tests/Unit/DiscountManagerTest.php:13-61 | SAVE20 then FLAT10 on 200 gives 150; both assignments are used once and both applications are audited |
| Scenarios.StackedEligible | tests/Unit/DiscountManagerTest.php:39-42 | both assignments are eligible for 200 |
| Scenarios.StackedLoaded | tests/Unit/DiscountManagerTest.php:39-40 | both assignments load with their discounts |
| Scenarios.StackedFound | tests/Unit/DiscountManagerTest.php:19-37 | each assignment's discount key finds SAVE20 and FLAT10 |
| Scenarios.StackedQualify | tests/Unit/DiscountManagerTest.php:39-42 | both loaded assignments pass the filter for 200 |
| Scenarios.StackedSorted | tests/Unit/DiscountManagerTest.php:19-37 | SAVE20 then FLAT10 is in stacking order |
| Scenarios.StackedCodesDiffer | tests/Unit/DiscountManagerTest.php:19-37 | the two candidates have different codes |
| Scenarios.StackedOrder | tests/Unit/DiscountManagerTest.php:19-37 | SAVE20 (priority 20) comes before FLAT10 (priority 10) |
| Scenarios.StackedLoop | tests/Unit/DiscountManagerTest.php:42-44 | the loop takes 40 and then 10, and stops after the non-stackable FLAT10 at 150 |
| Scenarios.StackedCheckout | tests/Unit/DiscountManagerTest.php:42-44 | apply of 200 gives 150 with those two applications |
| Scenarios.StackedTables | tests/Unit/DiscountManagerTest.php:46-60 | usage counts become 1 and two 'applied' audit rows are written |
| Scenarios.FirstUseLoop | tests/Unit/DiscountManagerTest.php:84-87 | the loop takes 15 off 100 |
| Scenarios.FirstUse | tests/Unit/DiscountManagerTest.php:82-87 | the first apply of 100 gives 85 and uses ONEUSE once |
| Scenarios.FirstUseCheckout | tests/Unit/DiscountManagerTest.php:84-87 | the first apply of 100 gives 85 with one application of ONEUSE |
| Scenarios.FirstUseRow | tests/Unit/DiscountManagerTest.php:82-87 | that application leaves the row with one use |
| Scenarios.FirstUseEligible | tests/Unit/DiscountManagerTest.php:82-84 | the fresh ONEUSE assignment is eligible |
| Scenarios.SecondUse | tests/Unit/DiscountManagerTest.php:85-94 | the second apply of 80 gives 80, with nothing applied and no row changed |
| Scenarios.OnlyActiveEligible | tests/Unit/DiscountManagerTest.php:97-143 | of ACTIVE, expired OLD and revoked INACTIVE only ACTIVE is eligible for 50 |
| Scenarios.ThreeRowsLoaded | tests/Unit/DiscountManagerTest.php:131-137 | the revoked INACTIVE assignment is not loaded |
| Scenarios.ThreeRowsActive | tests/Unit/DiscountManagerTest.php:137 | the revoked row drops out of the active scope |
| Scenarios.ThreeRowsDiscounts | tests/Unit/DiscountManagerTest.php:131-136 | the two unrevoked rows load ACTIVE and OLD |
| Scenarios.ActiveFilter | tests/Unit/DiscountManagerTest.php:135-142 | the filter drops the expired OLD and keeps ACTIVE |
| ManagerRuns.AssignFresh | src/Services/DiscountManager.php:25-64 | assigning an active discount the user has never held appends one row with no uses under the next key and one 'assigned' audit row |
| ManagerRuns.RevokeCurrent | src/Services/DiscountManager.php:66-94 | revoking an unrevoked assignment stamps that row revoked at now, changes nothing else in the rows and appends one 'revoked' audit row |
| ManagerRuns.ApplyKnown | src/Services/DiscountManager.php:121-223 | apply returns the rounded final amount of the checkout, saves each application's use and appends one 'applied' audit row per application |
| ManagerRuns.FoundByCode | src/Services/DiscountManager.php:225-238 | a discount whose code is upper case and unique in the catalog is found by that code |
| ManagerRuns.WholeCents | src/Services/DiscountManager.php:342-352 | a whole amount is already on the two-place grid |
| ManagerRuns.SaveCode | tests/Unit/DiscountManagerTest.php:39 | SAVE20 is found by its code |
| ManagerRuns.FlatCode | tests/Unit/DiscountManagerTest.php:40 | FLAT10 is found by its code |
| ManagerRuns.StackedRounding | tests/Unit/DiscountManagerTest.php:42-44 | 200 and 150 are unchanged by rounding |
| ManagerRuns.StackedAssigned | tests/Unit/DiscountManagerTest.php:16-40 | a new manager given SAVE20 and FLAT10 holds two unused rows and two 'assigned' audit rows |
| ManagerRuns.StackedRun | tests/Unit/DiscountManagerTest.php:13-61 | apply of 200 on that manager returns 150.0, both rows have one use, and two 'applied' audit rows record 40 off SAVE20 and 10 off FLAT10 |
| ManagerRuns.FirstUseRounding | tests/Unit/DiscountManagerTest.php:84-87 | 100 and 85 are unchanged by rounding |
| ManagerRuns.SecondUseRounding | tests/Unit/DiscountManagerTest.php:85-88 | 80 is unchanged by rounding |
| ManagerRuns.UsageCapRun | tests/Unit/DiscountManagerTest.php:63-95 | with ONEUSE assigned, the first apply of 100 returns 85.0, the second apply of 80 returns 80.0, and the row ends with exactly one use |
| ManagerRuns.ActiveCode | tests/Unit/DiscountManagerTest.php:131 | ACTIVE is found by its code |
| ManagerRuns.OldCode | tests/Unit/DiscountManagerTest.php:132 | OLD is found by its code |
| ManagerRuns.InactiveCode | tests/Unit/DiscountManagerTest.php:133 | INACTIVE is found by its code |
| ManagerRuns.AfterCode | tests/Unit/DiscountManagerTest.php:135-137 | INACTIVE is still found by its code after the catalog is updated |
| ManagerRuns.TwoAssigned | tests/Unit/DiscountManagerTest.php:131-132 | a new manager given ACTIVE and OLD holds two unused rows |
| ManagerRuns.ThreeAssigned | tests/Unit/DiscountManagerTest.php:131-133 | adding INACTIVE gives three unused rows in key order |
| ManagerRuns.EligibleRun | tests/Unit/DiscountManagerTest.php:97-143 | after OLD expires, INACTIVE is switched off and revoked, eligibleFor 50 returns exactly the ACTIVE assignment |

## Left out

- Events (`Event::dispatch` of DiscountAssigned, DiscountRevoked and DiscountApplied) are fire-and-forget notifications and are not modelled.
- Database transactions and row locks: each operation is one atomic method whose errors leave the tables unchanged. Concurrency and `concurrency.lock_timeout` are not modelled.
- Time is an integer parameter `now` (whole seconds) instead of Carbon's clock.
- IEEE-754 doubles and PHP's `round` internals: amounts are exact reals. The audit columns' decimal(12,2) storage is not modelled, and audit amounts are kept exact.
- `Str::upper` is modelled for ASCII letters only.
- The discounts table is a read-only parameter. The name and description columns and the timestamps columns are not modelled. Each audit row's `context` and `order_id` are opaque values.
- `eligibleFor` takes the order amount as a parameter. The default of 0 for a missing `amount` context key is left to the caller.
- `resolveSortValue` for `assigned_at` reads the assignment's timestamp directly. The `?? 0` fallback for a missing timestamp is not modelled, because the column is required.
- The Discount model's `userDiscounts()`/`audits()` relations and the DiscountAudit model are not modelled.
- The service provider, the facade, the contract interface and the user-model trait are not part of this model.
- Calculator.FixedStepIgnoresCap: a concrete case only, kept to show why no global bound on the total is claimed for stacks that contain fixed discounts.
- Rounding.Round: precision is a natural number. A negative `caps.precision`, which the code accepts and which rounds to tens or hundreds, is not modelled.
- Manager.Checkout: its own contract states only that the result is rounded. The accounting, error and step properties of apply are separate lemmas in ApplyFacts.
