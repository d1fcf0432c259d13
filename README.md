# Migration executor

A model of the `Executor` of the migration package: the object that asks a
provider for the ordered list of migrations, then walks that list forward to
apply the pending ones (`Run`, `RunAll`) or backward to revert the applied
ones (`Revert`, `RevertAll`). Each migration it picks goes to an optional
hook and then to a runner. `Setup` writes and runs the bootstrap migration
that creates the ledger table. `Create` asks a generator for a new migration
file.

The collaborators are outside the model and appear as oracles:

- the provider is the answer it gives, a list of items or an error;
- the runner and the generator are functions from what they are handed to
  the error (or value) they return;
- each hook is an optional function from the item to the item it leaves
  behind;
- `time.Parse`, `Format` and the sentinel instant `min` form a `Layout`;
- `time.Now()` is a parameter.

Every operation returns the Go error (`None` for `nil`) together with a
trace. The trace lists, in order, each call made to the generator, the hooks
and the runner, with what each was handed.

Files:

- `types.dfy` (module `MigrationTypes`): items, instants, errors, events,
  and sequence reversal with its lemmas.
- `executor.dfy` (module `Migration`): the `Executor` and its methods.
  `Run` and `Revert` keep the source's loops: a forward `range` walk, and a
  countdown index from `len - 1`, each with a decrementing `step` budget.
  Both loops are proved equal to one specification function,
  `Executor.Walk`. Walk takes an item verdict (`Judge`) and the direction.
  The lemmas `WalkPrefix`, `WalkClean` and `WalkSummary` then describe what
  any walk does.
- `properties.dfy` (module `MigrationProperties`): lemmas that relate
  several items or calls. They cover where a walk stops and why, which items
  reach the runner and the hooks, and how a revert mirrors a run.

Terms: an item is *applied* when its `CreatedAt` is not the zero instant.
The *sentinel* is the Id that parses to `min`; it is the Id of the
bootstrap migration. A walk *acts on* an item when it picks it: it gives the
item to the hook, when there is one, and then hands the runner the copy `op`
as the hook left it. Without a hook, or with a hook that keeps the Id, that
copy has the item's Id. An item *passes* when the walk neither stops on it
nor gets an error from the runner for it. A list is *clean* when every item
in it passes.

## Model

| member | source | states |
|---|---|---|
| Migration.Executor.Setup | migration/executor.go:25-51 | The generator's `Write` is called first, with the bootstrap item `SetupItem` (the sentinel Id, description "setup", the clock reading) and the ledger scripts `LedgerScript`. The up script is the `CREATE TABLE migrations` statement with the `id`, `description` and `created_at` columns, and the down script is `DROP TABLE IF EXISTS migrations;`. If `Write` fails, its error is returned and nothing else is called. Otherwise the runner gets that same item and its error is returned. |
| Migration.Executor.Create | migration/executor.go:55-65 | A single generator call is made, with an item whose Id is the formatted clock reading, whose description is the given name and whose creation time is the clock reading. The generator's path and error are both returned unchanged, as Go's `(string, error)` pair. |
| Migration.Executor.Run | migration/executor.go:69-103 | A provider error is returned unchanged and nothing is called. Otherwise the loop's error and calls equal the forward walk. `Run(0)` calls nothing and returns nil. The calls are always those for the first `n` items acted on, in list order, with `n` at most `step` when `step >= 0`. On a clean list there is no error and exactly the first `step` eligible items (every one when `step < 0`) are run. The same holds when only the items up to some position pass and a non-negative budget runs out among them: what comes later is never looked at. |
| Migration.Executor.RunAll | migration/executor.go:106-108 | The same as `Run(-1)`. On a clean list, every pending item that is not the sentinel is run, in list order. |
| Migration.Executor.Revert | migration/executor.go:112-148 | Like `Run`, but over the reversed list and with the revert rules. A provider error is returned unchanged. `Revert(0)` calls nothing. The calls are those for the first `n` items acted on (the last applied items first), `n` within the budget. On a clean list, exactly the first `step` of them are reverted. The same holds when a non-negative budget runs out among items that all pass. When the items after an applied sentinel all pass, `Revert` returns nil at the sentinel, having reverted the first `step` of those items, or all of them when the budget lasts. |
| Migration.Executor.RevertAll | migration/executor.go:151-153 | The same as `Revert(-1)`. On a clean reversed list, every applied item is reverted, from the end of the list to its start. When the items after an applied sentinel all pass, every applied one of them is reverted, last first, and nil is returned at the sentinel. |
| Migration.Executor.ApplyRules | migration/executor.go:80-87 | The rules `Run` applies to an item. An Id that fails to parse stops the walk with the parse error, applied or not. An item whose Id parses is passed over exactly when it is applied or its instant is `min`. An item is acted on exactly when its Id parses, it is pending, and its instant is not `min`. `Run` never stops without an error. |
| Migration.Executor.RevertRules | migration/executor.go:125-132 | The rules `Revert` applies to an item. A pending item is passed over whatever its Id. An applied item with a bad Id stops the walk with the parse error. The walk stops with no error exactly at an applied sentinel. An item is acted on exactly when it is applied and its Id parses to something other than `min`. |
| Migration.Executor.WalkErrorSource | migration/executor.go:80-97 | A walk returns an error only when it got one, from the item it ended on. Every item before that one passed, and the error is either that item's parse error or the runner's error for it. |
| Migration.Executor.WalkSkips | migration/executor.go:85-87 | `Walk`'s defining step for an item judged skip: it is passed over, with no call and no budget spent. |
| Migration.Executor.WalkStops | migration/executor.go:80-83 | `Walk`'s defining step for an item judged stop: the walk ends with the verdict's error and no further calls. |
| Migration.Executor.WalkActs | migration/executor.go:89-99 | `Walk`'s defining step for an item that is acted on: it gets its hook call and then its runner call. A runner error ends the walk with that error. Otherwise the walk goes on with one step less. |
| Migration.Executor.WalkPrefix | migration/executor.go:75-100 | Whatever happens, a walk's calls are those for a prefix of the items it would act on, and that prefix is no longer than a non-negative budget. |
| Migration.Executor.WalkClean | migration/executor.go:75-100 | On a clean list, a walk returns no error and makes the calls for exactly the first `step` acted-on items, or for all of them when `step` is negative. |
| Migration.Executor.WalkSummary | migration/executor.go:76-78 | A zero budget gives no calls and no error. The prefix, clean-list, budget and sentinel facts hold from the start of the list. |
| Migration.Executor.WalkBudget | migration/executor.go:76-99 | Suppose the items up to position `j` all pass and a non-negative `step` is at most the number acted on among them. Then the walk returns no error and makes exactly the calls for the first `step` of those items. Each one spends one step, and the walk ends when the budget reaches 0. |
| Migration.Executor.WalkUntil | migration/executor.go:129-132 | Suppose the items before position `j` all pass and the item at `j` stops the walk with no error. Then the walk returns no error, having made the calls for the first `step` items acted on before `j`, or for all of them when the budget lasts. |
| MigrationTypes.ReversedAt | migration/executor.go:118 | Position `k` of the reversed list is position `len - 1 - k` of the list. This is the countdown order in which `Revert` reads the items. |
| MigrationProperties.WalkThrough | migration/executor.go:75-100 | Across a stretch of items that all pass, and while the budget lasts, a walk makes exactly the calls for the stretch's acted-on items. It then continues after the stretch with the budget reduced by their number. |
| MigrationProperties.WalkHalts | migration/executor.go:95-97 | The first item that does not pass ends the walk. The walk returns that item's error, and its calls are those for the items acted on before it, plus that item's own calls when it is the runner that failed. No later item is looked at. |
| MigrationProperties.RunAbortsOnBadId | migration/executor.go:80-83 | In `Run`, an Id that fails to parse aborts the whole call with that parse error, even for an applied item, because the parse comes before the applied check. |
| MigrationProperties.RunnerErrorReturned | migration/executor.go:140-142 | A runner error, in either direction, is returned at once. The calls already made stay in the trace, ending with the failing item's own calls, and nothing later is attempted. |
| MigrationProperties.RevertStopsAt | migration/executor.go:129-132 | Going backward, the first applied item whose Id fails to parse or is the sentinel ends `Revert`. The result is the parse error, which is nil for the sentinel. Only items after it in the list are reverted. |
| MigrationProperties.ActedEligible | migration/executor.go:85-87 | Every item a walk acts on comes from the list and has an Id that parses to something other than `min`. It is pending for `Run` and applied for `Revert`. So the sentinel is never given to the hook. The runner gets the hook's copy, which RunnerNeverSeesSentinel covers. |
| MigrationProperties.RunnerNeverSeesSentinel | migration/executor.go:89-95 | Suppose there is no hook, or the hook keeps the Id of the item it is given. Then every item handed to the runner has an Id that parses to something other than `min`, so the sentinel never reaches the runner. |
| MigrationProperties.TraceHandsPrepared | migration/executor.go:89-95 | The runner gets, per acted-on item and in order, the copy as the hook left it. The hook, when set, gets each acted-on item and nothing else. |
| MigrationProperties.HandlingHands | migration/executor.go:134-142 | For one item that is reverted (or run): the hook gets the item, and the runner gets the copy the hook returned. The error the walk then sees is the runner's answer for that copy. |
| MigrationProperties.RerunActsOnNothing | migration/executor.go:85-87 | Once `RunAll` has recorded every item it acts on as applied, a second run hands nothing to the runner, whatever its budget. |
| MigrationProperties.RevertMirrorsRun | migration/executor.go:118-132 | When every item is pending and eligible, a run acts on all of them in list order. Once they are recorded as applied, a revert acts on all of them from last to first. |
| MigrationProperties.RunThenRevert | migration/executor.go:118-147 | Take a ledger of the applied bootstrap item followed by pending, eligible items that the runner applies and reverts without error. `Run(step)` returns nil and runs exactly the first `step` of them (all when negative). Once those are recorded, `Revert(back)` returns nil. It reverts exactly the first `back` of them, last applied first (all when negative), passes over the still-pending ones, and stops at the bootstrap item without reverting it. For example, `Run(2)` and then `RevertAll` reverts the second item and then the first. |
| MigrationProperties.RevertToBootstrap | migration/executor.go:125-132 | A revert over pending items, then recorded ones, then the applied sentinel passes over the pending ones. It reverts the first `back` recorded ones, or all of them, and returns nil at the sentinel. |
| MigrationProperties.SetupItemIsSentinel | migration/executor.go:26-30 | Suppose the layout parses its own formatting of `min` back to `min`. Then the item `Setup` creates is skipped by `Run`, and it ends `Revert` without an error; neither walk acts on it. |

## Left out

- Migration.Executor.Migrations: modelled as the provider's answer passed through. It has no contract of its own; the contracts of `Run` and `Revert` are stated in terms of it.
- Migration.Executor.Run, Migration.Executor.Revert: `step` is an unbounded integer, and the wrap-around of Go's `int` is not modelled. `int` is 64 bits wide on 64-bit platforms and 32 bits wide on 32-bit ones. A non-negative budget only counts down to 0 and never wraps. A negative budget can wrap: the most negative `int` becomes the most positive one after one decrement. But a negative budget reaches 0, the only value that ends the walk, only after at least 2^63 decrements with a 64-bit `int` (2^31 with a 32-bit `int`), one per item acted on. So for any list shorter than that, the unbounded model acts on the same items as the Go code.
- Migration.Executor.Setup: the up script built line by line into a buffer is a constant pair of strings (`LedgerScript`). The buffer writes are not modelled as steps.
- Migration.Executor.Setup: the generator receives the item by reference (`*Item`). A generator that changed the item before the runner sees it is not modelled; the runner is given the item as built.
- The runner, the generator and the hooks are functions of what they are handed. Their answers do not depend on earlier calls or on the database's state, and the database writes they make are not modelled.
- A hook that changes the item through its address (`&op`) is modelled as a function that returns the changed copy. The copy is a value, so no aliasing with the provider's list is modelled.
- `time.Parse`, `Time.Format`, the `format` layout and `min` are opaque parameters (`Layout`), and `time.Now()` is a parameter. The package's declarations of `format` and `min` are not part of this model. The layout string at script/model.go:8 belongs to another package and is not interpreted.
- The database glue in gateway.go and the test bootstrap in suite_test.go are not part of this model. Neither contains executor logic.
- A second call to `Setup` is modelled as written: it writes and runs the bootstrap item again. What the store then does is up to the runner oracle.
- When `Revert` reaches the sentinel, it stops and returns nil. This is modelled as written; it does not skip past the sentinel.
