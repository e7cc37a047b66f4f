# A verified model of the in-flight operations operator

The operator watches Kubernetes resources, evaluates rulesets against them and keeps one
`InFlightOperation` (IFO) object per detected operation; a kubectl plugin shows the IFOs as a
forest. This project models the parts whose behaviour is decided by code and proves what they
promise. `dafny verify dfyconfig.toml` checks it.

| files | part |
|---|---|
| `Api`, `Operations`, `Evaluator` | the resource types, the labels an IFO is found by, ruleset evaluation through the program cache |
| `ProgramCacheProtocol` | the same cache as interleaved lock steps of any number of threads |
| `Lifecycle*` | what an event may do to the stored IFOs, and what holds over whole runs of events |
| `ApiServer`, `Watcher` | the event handler and the API calls it makes, proved to follow those steps |
| `RuleCache`, `WatchCache`, `WatchSet`, `WatchRegistry` | the two caches of the controller and Setup, Teardown and Shutdown over them |
| `Conditions`, `ConditionSessions`, `StatusConditions`, `ReconcilePass`, `Reconciler` | condition staging, its report, and the reconcile that uses it |
| `SubjectGroups`, `OwnerGraph`, `Adoption`, `Rearranging`, `Comparing` | the plugin's graph theory on plain values |
| `Forest`, `Correlate`, `ForestWalk`, `BuildForest` | the same on linked nodes: building, regrouping, sorting and listing |
| `Layout`, `PrintForest`, `PrintedNodes` | the printed tree, and that it has a row for every listed node |

How the parts fit together: code that changes state is a method over a class or a local variable and
is proved against a relation or function on plain values (`HandleTrace`, `After`, `Step`, `Pass`,
`Linking`); the properties below are then lemmas about those values, over every input and run.
Where a call can fail, it may fail at any time and without effect, and the server counts its
failures, so that "no call failed" is something a method cannot merely claim. What the functions on
which all this rests compute is said once more in terms of labels, times, texts and positions alone
(`LifecyclePlain`, `LabelsAre`, `GroupedUnderRoots`, `Reports`, `Before`, `Draws` and the lemmas on them).

Things the code decides differently from its documentation, or that need a condition:

- README.md:104 of the repository calls the debounce threshold a grace period before an operation is
  marked completed, and docs/test-plan-rulesets.md:1175 says completed IFOs are deleted after it. The
  code completes an operation at the first event that misses it, and without retention deletes it at
  once; the threshold only decides whether a later detection reuses the IFO, and every further miss
  inside the threshold restarts it (`LifecycleRepeat.MissRestartsThreshold`).
- At most one IFO of an operation (of one subject, detected by one ruleset) should be live. Two things
  can break that. First, an IFO is looked up by all the labels now desired. When a label expression
  (docs/writing-rulesets.md:40), edited static labels or component, or a new first owner reference make
  these labels other than those the IFO carries, it is not found and stays live beside a new one
  (`LifecycleSteady.LabelChangeFails`: two clean events, under every configuration). Second, creation
  times are whole seconds, so with a threshold of zero an IFO and its successor can tie
  (`LifecycleThreshold.ZeroThresholdFails`). For any set of events the exact condition is
  `LifecycleMisses.ExactlySafe`: the events give every operation the same labels throughout, and the
  threshold is positive or no event misses an operation another detects. Rulesets without label
  expressions whose labels and component stay, on subjects that keep their first owner, meet the first
  half (`LifecycleSteady.SteadyLabelsAgree`).
- What a detection reuses, and what a repeated event changes, is stated for any store, whatever labels its
  IFOs were created with, in terms of the newest IFOs that the desired labels select
  (`LifecycleDebounce.DebounceIdentity`, `LifecycleRepeat.RepeatChangesOnlyTimes`). The one thing that
  can spoil it is a tie: creation times are whole seconds and the sort leaves ties open, so among newest
  IFOs created in one second either may be picked. `LifecycleTies.RepeatsExactly` is the exact condition
  for a repeated event to change timestamps only, and `LifecycleTies.TiesFail` a run in which it changes
  more. With labels fixed per operation and a positive threshold nothing ties
  (`FixedLabelsDoNotTie`); only the order among IFOs with equal labels, `StepKeepsInvariant`, needs these two
  conditions as such.
- `Reconcile` goes on to validation and Setup after finalizing a deleted ruleset. The ruleset is out
  of the cache afterwards if and only if validation blocks or its watch cannot be registered
  (`Reconcilers.DeletedRuleSetReturns`).
- `RemoveRule` looks under the ruleset's present target, so the rule cache stands for a map keyed by
  target and name. A ruleset whose target changes keeps its entry, and its watch, under the old one, even
  after its deletion (`WatchSet.RetargetedStays`). The rulesets that are ever set up are cached under one
  target per name, in every sequence of requests, if and only if none of them changes its target
  (`WatchSet.TargetsDecideNames`).
- Nodes whose owner references form a cycle, and everything below them, are reached from no root and
  so are neither listed nor printed, as for one IFO whose subject owns itself
  (`ForestBuilder.ListSelfOwned`). Everything is reachable if and only if there is no cycle.
- Printed columns count bytes of subjects and operations, so rows line up if and only if these are ASCII
  (`Layout.AlignedIffAscii`); one accented name is enough to shift a row (`Layout.AccentMisaligns`).

## Model

| member | source | states |
|---|---|---|
| Api.IfoVariable.MarkCompleted | api/v1alpha1/inflightoperation_types.go:143-148 | the status becomes Completed at this time and generation, and nothing else changes |
| Api.IfoVariable.MarkDetection | api/v1alpha1/inflightoperation_types.go:150-157 | the status becomes Active, detected now by these rulesets, with no completion left |
| Operations.BuildIsIndexed | internal/watch/operations.go:50-71 | whatever static and dynamic labels a user supplies, the built IFO carries the labels of its own subject, operation and ruleset |
| Operations.UserLabelPriority | internal/watch/operations.go:109-127 | labels the operator does not own come from the static labels first and the label expressions second |
| Operations.SubjectSelection | internal/watch/operations.go:100-107 | selecting by subject labels picks exactly the IFOs whose spec subject has that uid, name, namespace and kind |
| Operations.BuildsFor | internal/watch/operations.go:50-71 | the built IFO carries the labels of its subject, operation, ruleset, component and first owner under their own keys, and its spec repeats the subject, with all owner references, the ruleset and the component |
| Operations.UnownedUserLabels | internal/watch/operations.go:109-127 | for a subject without owners the owner labels too are the user's, static before dynamic |
| Operations.GroupVersions | internal/watch/operations.go:119-125 | the owner's API version gives a version, or the group and the version around its one slash; with more slashes it gives neither |
| Evaluator.MatchedOperationsMeaning | internal/evaluator/evaluator.go:108-132 | a ruleset evaluates without error iff every rule yields a boolean, and then matches exactly the operations of the true rules |
| Evaluator.MatchedInOrder | internal/evaluator/evaluator.go:114-123 | the operations are those of the rules that hold, one for each, in rule order |
| Evaluator.DynamicLabelsMeaning | internal/evaluator/evaluator.go:124-130 | there is a label for exactly the keys of expressions that yield a string, with the string of the last of these; expressions in error change nothing |
| Evaluator.CelEvaluator.GetOrCompile | internal/evaluator/program_cache.go:34-67 | returns what compiling gives, caches successes and never failures |
| Evaluator.CelEvaluator.Evaluate | internal/evaluator/evaluator.go:55-79 | a rule's value is its boolean under a fresh compilation, otherwise an error |
| Evaluator.CelEvaluator.EvaluateLabelExpression | internal/evaluator/evaluator.go:82-105 | a label's value is its string under a fresh compilation, otherwise an error |
| Evaluator.CelEvaluator.EvaluateRuleSet | internal/evaluator/evaluator.go:108-132 | whatever is cached, it fails iff some rule does not compile and run to a boolean, and otherwise returns the operations of the rules that hold, in order, and for each key the string of the last expression that yields one |
| ProgramCacheProtocol.MoveKeepsInvariant | internal/evaluator/program_cache.go:34-67 | every lock step of every thread keeps the lock discipline, honest cache entries and the compile counts |
| ProgramCacheProtocol.CacheIsCorrect | internal/evaluator/program_cache.go:34-67 | in every state of every interleaving cached programs are compilations of their keys, each compiled successfully once, and threads return what compiling gives |
| ProgramCacheProtocol.SomeThreadMoves | internal/evaluator/program_cache.go:34-67 | no deadlock: while a call has not returned some thread can move |
| Watchers.OperationClient.Ensure | internal/watch/operations.go:73-98 | returns a newest IFO with the labels, which has not completed or did so less than a threshold ago; or creates exactly one, when there is none or a newest one completed at least a threshold ago; a failure changes nothing |
| Watchers.OperationClient.List | internal/watch/operations.go:39-48 | lists exactly the stored IFOs with the subject's labels, each once |
| Watchers.OperationClient.DeleteAll | internal/watch/operations.go:24-37 | deletes exactly the subject's IFOs, or nothing on failure |
| Watchers.FirstIsNewest | internal/watch/operations.go:85-96 | sorting by creation, with ties in any order, puts a newest IFO with the labels first |
| Watchers.Watcher.Handle | internal/watch/watcher.go:134-200 | the whole event follows the completion and detection passes over the stored IFOs, and counts as clean exactly if no API call failed; the error returned is that of the listing or of the last detection, if there is one |
| Watchers.Watcher.EvaluateAll | internal/watch/watcher.go:147-166 | the results are those of the applicable, error-free rulesets in order, and the detected names are those of all their operations |
| Watchers.Watcher.CompleteMissed | internal/watch/watcher.go:172-180 | of the subject's listed IFOs exactly the undetected ones that did not complete a threshold or more ago are completed as of now, or deleted without retention; the rest is as it was |
| Watchers.Watcher.MarkCompleted | internal/watch/watcher.go:217-229 | a status update that either completes the stored IFO or changes nothing |
| Watchers.Watcher.CleanupCompleted | internal/watch/watcher.go:232-241 | deletes the IFO unless completed ones are retained |
| Watchers.Watcher.DetectAll | internal/watch/watcher.go:182-198 | one detection step for every operation of every result, in order, with a step for those that fail too |
| Watchers.Watcher.Detect | internal/watch/watcher.go:184-196 | one match reuses or creates its IFO and marks it detected by its ruleset |
| Watchers.Watcher.HandleDelete | internal/watch/watcher.go:202-214 | deleting a subject deletes exactly its IFOs, or nothing on failure |
| Lifecycle.DesiredShape | internal/watch/watcher.go:182-184 | an IFO is wanted for exactly the (ruleset, operation) pairs matched, indexed by its own subject |
| LifecyclePlain.DesiredMeaning | internal/watch/watcher.go:147-166 | an IFO is wanted for a ruleset and an operation iff the ruleset applies to the subject's namespace, all its rules decide and one for the operation holds |
| LifecyclePlain.ResultsInOrder | internal/watch/watcher.go:147-166 | the results are those of the rulesets that count, each once, in the order listed |
| LifecyclePlain.DesiredInOrder | internal/watch/watcher.go:182-184 | one IFO is built for each operation of each result, in that order |
| LifecyclePlain.LiveMeaning | internal/watch/watcher.go:134-200 | after a clean event an operation of the subject has a live IFO iff some ruleset detects it, and one detected now, at the subject's generation, for each ruleset that does |
| LifecyclePlain.MissedMeaning | internal/watch/watcher.go:172-180 | after a clean event an undetected IFO is as it was if completed + threshold <= now, and otherwise completed as of now, at the subject's generation, or gone without retention |
| LifecyclePlain.HandlingOnlyAdds | internal/watch/watcher.go:134-200 | whatever calls fail, an event changes nothing of an IFO that was there but its status, to completed or detected as of now, and what appears is created now with the spec and labels of a wanted IFO, detected now or, where a later call failed, without a status |
| LifecyclePlain.DeletionMeaning | internal/watch/watcher.go:202-214 | a clean deletion removes exactly the IFOs whose spec names the subject by uid, name, namespace and kind, and changes no other |
| LifecyclePlain.LiveIsReused | api/v1alpha1/inflightoperation_types.go:150-165 | a sole newest IFO with the labels that has not completed, or for which now < completed + threshold, keeps its name, labels, creation and spec and is active; none with the labels appears, goes or changes |
| LifecyclePlain.PastIsReplaced | internal/watch/operations.go:85-96 | when the newest IFOs with the labels have completed + threshold <= now, for a positive threshold, or there is none, exactly one appears, created and detected now, and the others stay as they are |
| LifecyclePlain.OneIsLive | internal/watch/operations.go:73-98 | with fixed labels and a positive threshold, of two IFOs that agree in subject, operation and ruleset the older one completed at least a threshold ago |
| LifecycleSafety.RunIsGood | api/v1alpha1/inflightoperation_types.go:143-157 | in every state of every run, whatever fails, the phase is Completed exactly when a completion time is set, and an IFO is detected by nothing or exactly its own ruleset |
| LifecycleSafety.StepKeepsGood | internal/watch/watcher.go:134-214 | every event keeps that |
| LifecycleSafety.StepKeepsInvariant | internal/watch/watcher.go:172-198 | with a positive threshold and labels fixed per operation, every event keeps the order among IFOs with equal labels: each older one is completed and past the threshold |
| LifecycleSafety.RunKeepsInvariant | internal/watch/watcher.go:134-214 | under the same two conditions so does every run of updates, deletions and time, with any calls failing |
| LifecycleSafety.OnlyNewestIsLive | internal/watch/operations.go:73-98 | with a positive threshold and labels fixed per operation, in every reachable state only the newest IFO of an operation can be live and the others are past the threshold |
| LifecycleSafety.PastIsFrozen | internal/watch/watcher.go:172-180 | once past the threshold an IFO survives every later event unchanged, up to the deletion of its subject |
| LifecycleOutcome.HandleIsExact | internal/watch/watcher.go:134-200 | after a clean event the operations of the subject's Active IFOs are exactly the matched ones, with an Active IFO for every matched (ruleset, operation) |
| LifecycleOutcome.ResultsMeaning | internal/watch/watcher.go:147-166 | the rulesets that count are exactly the applicable ones that evaluate without error |
| LifecycleOutcome.OtherSubjectsUntouched | internal/watch/operations.go:24-48 | handling or deleting one subject leaves the IFOs of every other subject as they are, failures included |
| LifecycleOutcome.UndetectedIsCompleted | internal/watch/watcher.go:172-180 | after a clean pass an undetected operation has no live IFO |
| LifecycleDebounce.DebounceIdentity | internal/watch/operations.go:73-98 | in any store a clean event keeps the IFOs that the labels of a desired operation select: if no newest one is past the threshold one of these is detected and only newest ones change; if all are past a positive threshold, or none is selected, exactly one is created and the others stay as they are |
| LifecycleDebounce.SoleNewestIsReused | internal/watch/operations.go:85-96 | so a sole newest IFO that is not past the threshold keeps its identity, and it alone of the selected ones changes |
| LifecycleDebounce.FixedDebounce | api/v1alpha1/inflightoperation_types.go:163-165 | with fixed labels and a positive threshold the one live IFO with the labels is kept, and exactly one fresh one is created when there is none |
| LifecycleRepeat.RepeatChangesOnlyTimes | internal/watch/watcher.go:147-198 | for any threshold and any labels before, handling the same subject again, cleanly, creates and deletes nothing and changes only timestamps, even when several rules name one operation, provided no two IFOs tie as the newest that some desired labels select |
| LifecycleRepeat.FixedRepeat | internal/watch/watcher.go:147-198 | with fixed labels and a positive threshold nothing ties, so that holds without the proviso |
| LifecycleTies.RepeatsExactly | internal/watch/operations.go:85-96 | however the repeated event picks among the newest IFOs, it changes timestamps only iff each of these is active, detected by its ruleset and at the subject's generation |
| LifecycleTies.TiesFail | internal/watch/operations.go:85-96 | a run of four clean events in which the labels of an operation change and two IFOs tie: the repetition of the last event updates the other IFO |
| LifecycleRepeat.MissRestartsThreshold | internal/watch/watcher.go:173-177 | each event that misses an IFO inside the threshold completes it as of now, or deletes it without retention |
| LifecycleRepeat.CompletedAreNeverKept | internal/watch/watcher.go:232-241 | without retention and failures no completed IFO is ever in the store |
| LifecycleThreshold.ThresholdDecidesSafety | api/v1alpha1/inflightoperation_types.go:163-165 | fixed labels keep at most one live IFO per operation in all runs, for all rulesets and expressions, iff the threshold is positive |
| LifecycleThreshold.ZeroThresholdFails | internal/watch/operations.go:85-96 | without a positive threshold four events within a second, all with the same labels, leave two active IFOs of one operation |
| LifecycleLabels.TwoLabelsTwoLive | internal/watch/operations.go:73-98 | two events that give one operation labels of which the second do not select the first leave two active IFOs of it, for every configuration |
| LifecycleLabels.LabelsDecideSafety | internal/watch/operations.go:109-127 | with a positive threshold, any set of events, closed under changing clock and failures and with distinct ruleset names in each, keeps at most one live IFO per operation in all its runs iff they give each operation the same labels throughout |
| LifecycleLabels.CachedNamesDiffer | internal/watch/rule_cache.go:42-96 | the rulesets the cache lists for a target have distinct names, whatever calls were made |
| LifecycleMisses.MissedTwoLive | internal/watch/watcher.go:172-198 | without a positive threshold any operation that is detected, missed and detected twice within a second has two active IFOs |
| LifecycleMisses.NeverMissedKeepsOneLive | internal/watch/operations.go:73-98 | without a positive threshold, events with agreeing labels that never miss an operation keep at most one live IFO of each |
| LifecycleMisses.ExactlySafe | internal/watch/watcher.go:134-200 | for every configuration and every set of events, closed under changing clock and failures and with distinct ruleset names in each: at most one live IFO per operation in all runs iff labels agree and, unless the threshold is positive, no event misses an operation another detects |
| LifecycleSteady.SteadyLabelsAgree | internal/watch/operations.go:109-127 | without label expressions, with static labels, component and first owner reference unchanged, labels agree whatever the rules say |
| LifecycleSteady.LabelChangeFails | api/v1alpha1/operationruleset_types.go:54-64 | a ruleset with one label expression whose value changes leaves two active IFOs of one operation after two clean events |
| RuleIndex.AfterStands | internal/watch/rule_cache.go:42-86 | one AddOrUpdateRule or RemoveRule changes the lists as it changes a map keyed by (target, name) |
| RuleIndex.CacheRefinesMap | internal/watch/rule_cache.go:42-110 | after any calls the lists hold exactly the map's rulesets, without repeats or empty lists, and the gauge equals their number |
| RuleIndex.LastCallWins | internal/watch/rule_cache.go:42-61 | the last call for a key decides what is cached for it |
| RuleIndex.KeysAreRuled | internal/watch/rule_cache.go:99-110 | the targets with a list are the targets with a rule |
| RuleCaches.RuleCache.AddOrUpdateRule | internal/watch/rule_cache.go:42-47 | the cache's lists, in their in-place arrays, change as that call does |
| RuleCaches.RuleCache.RemoveRule | internal/watch/rule_cache.go:57-61 | likewise for a removal |
| RuleCaches.RuleCache.addRule | internal/watch/rule_cache.go:64-67 | appends to the target's list, in place while there is room, and counts it |
| RuleCaches.RuleCache.removeRule | internal/watch/rule_cache.go:70-86 | swap-removes the first ruleset of that name, and the list when it becomes empty |
| RuleCaches.RuleCache.List | internal/watch/rule_cache.go:89-96 | a fresh array with exactly the target's rulesets |
| RuleCaches.RuleCache.GVRs | internal/watch/rule_cache.go:99-110 | the targets with rules, each once |
| RuleCaches.ListThenCalls | internal/watch/rule_cache.go:89-96 | a list taken earlier still reads the same after any later swaps and appends in place |
| WatchCaches.Watch.Start | internal/watch/watch_cache.go:113-117 | a started watch has an open stop channel of its own |
| WatchCaches.Watch.Stop | internal/watch/watch_cache.go:119-125 | stopping closes the channel of a running watch and never closes one twice |
| WatchCaches.WatchCache.Start | internal/watch/watch_cache.go:47-52 | adds a running watch and keeps the others; only for a target that is watched already the old watch is leaked, running but out of the cache, and the gauge is off, which is why `Register` looks first |
| WatchCaches.WatchCache.Stop | internal/watch/watch_cache.go:54-62 | removes the watch, if any, only after stopping it |
| WatchCaches.WatchCache.StopAll | internal/watch/watch_cache.go:69-73 | stops and removes every watch |
| WatchCaches.WatchCache.Prune | internal/watch/watch_cache.go:75-85 | keeps exactly the watches of the given targets, as they are, and stops the others |
| WatchRegistries.WatchRegistry.Register | internal/watch/watcher.go:73-94 | the target is watched afterwards, by the watch it had if any, unless its handlers cannot be added, and then nothing changes; no other watch is touched or forgotten |
| WatchRegistries.WatchRegistry.Prune | internal/watch/watcher.go:96-100 | keeps exactly the watches of targets with rules, as they are |
| WatchRegistries.WatchRegistry.Shutdown | internal/watch/watcher.go:65-70 | stops everything and leaves the rules |
| WatchRegistries.WatchRegistry.Setup | internal/controller/operationruleset_controller.go:190-198 | caches the rule and watches its target, or takes the rule out again when registration fails; every earlier watch stays |
| WatchRegistries.WatchRegistry.Teardown | internal/controller/operationruleset_controller.go:200-204 | takes the rule out and stops the watches of targets without rules; the other watches stay as they are |
| WatchRegistries.ServeAll | internal/controller/operationruleset_controller.go:190-204 | after any sequence of Setup, Teardown and Shutdown every watch ever started is in the cache and open or was stopped, and the gauge counts the open ones |
| WatchSet.StepKeepsWatched | internal/controller/operationruleset_controller.go:190-204 | every Setup, failed or not, and every Teardown keeps "watched iff it has rules" |
| WatchSet.FailedSetupLeavesUnruled | internal/controller/operationruleset_controller.go:190-198 | a failed Setup of a new target leaves the rule lists as they were |
| WatchSet.WatchedAreRuled | internal/controller/operationruleset_controller.go:190-204 | after every sequence of calls the watched targets have rules, and until Shutdown they are exactly the targets of the map those calls build |
| WatchSet.RetargetedStays | internal/controller/operationruleset_controller.go:190-204 | after setting a ruleset up, setting it up with a new target and tearing it down, the old target is still watched and still lists it |
| WatchSet.TargetsDecideNames | internal/watch/rule_cache.go:42-61 | every sequence of requests over some rulesets leaves at most one cached entry per ruleset name iff these rulesets share a target whenever they share a name |
| ConditionLists.MidReport | lib/condition/condition.go:174-191 | during a session a type is reported added iff it was absent and set, updated iff present and changed, and none deleted |
| ConditionLists.StagedWhen | lib/condition/condition.go:174-213 | a type is staged iff it was durable or staged by a call while present, or set |
| ConditionLists.SetFinds | lib/condition/condition.go:59-85 | after a set call the first condition of the type says what was set and is staged; it keeps its transition time if it said so before, and otherwise has changed now |
| ConditionLists.SetKeepsOthers | lib/condition/condition.go:174-191 | a set call leaves every other condition and the order alone, and adds a new one at the end |
| ConditionLists.SetReports | lib/condition/condition.go:360-379 | it reports a new type as added, a changed one as updated unless it was added before, neither as deleted, and nothing else |
| ConditionLists.EndReports | lib/condition/condition.go:123-139 | ending reports exactly the types of un-staged conditions as deleted, with one of them, and nothing else; the report stays disjoint |
| ConditionSessions.ExplainIsExact | lib/condition/condition.go:333-388 | the report of a session from an empty one is the exact, pairwise disjoint difference of the lists, and the lengths balance |
| ConditionSessions.SetsLeave | lib/condition/condition.go:111-139 | after set calls a type is left iff it was durable or set, whatever list came before |
| ConditionSessions.RepeatChangesNothing | lib/condition/condition.go:59-85 | repeating a session with the same conditions changes neither order, content, transition times nor report |
| ConditionSessions.SessionIsDistinct | lib/condition/condition.go:111-213 | a session never makes two conditions of one type |
| StatusConditions.ManagedConditions.BeginStagingConditions | lib/condition/condition.go:111-120 | from now on exactly the durable conditions are staged |
| StatusConditions.ManagedConditions.EndStagingConditions | lib/condition/condition.go:123-139 | keeps exactly the staged conditions, in order, and reports the others deleted |
| StatusConditions.ManagedConditions.SetCondition | lib/condition/condition.go:174-191 | updates the first condition of each type in place or appends it, stages it and reports the change |
| StatusConditions.ManagedConditions.StageCondition | lib/condition/condition.go:199-213 | stages the conditions of the given types that are present |
| StatusConditions.ManagedConditions.find | lib/condition/condition.go:143-155 | the first condition of the type, staged or not, or none if there is none |
| StatusConditions.ManagedConditions.FindCondition | lib/condition/condition.go:158-171 | what is found is the first condition of the type, and staged while staging; nothing is found only if there is none or, while staging, the first one is not staged |
| StatusConditions.ManagedConditions.HasConditionCategory | lib/condition/condition.go:273-293 | a true condition of one of the categories, staged ones only while staging |
| StatusConditions.ManagedConditions.HasBlockerCondition | lib/condition/condition.go:312-314 | the same for critical and error conditions |
| ReconcilePass.BlockedAfterValidation | internal/controller/operationruleset_controller.go:151-188 | the blocker check sees exactly this pass's errors and durable blockers, never a stale condition |
| ReconcilePass.BlockedMeaning | internal/controller/operationruleset_controller.go:115 | a pass is blocked iff it found an error, or a durable and true condition of category Critical or Error was there |
| ReconcilePass.PassReports | internal/controller/operationruleset_controller.go:121-188 | each error found, completed validation, and Ready or WatchFailed come out first of their types with status True and the source's reason, category and message |
| ReconcilePass.ReadyIsTrue | internal/controller/operationruleset_controller.go:131-138 | without durable conditions a Ready condition of status True is left iff nothing was found |
| ReconcilePass.TypesDependOnFindings | internal/controller/operationruleset_controller.go:107-141 | without durable conditions the types left depend only on target, expressions and setup, whatever came before |
| ReconcilePass.TypesLeft | internal/controller/operationruleset_controller.go:107-141 | in general they are the durable ones and those the pass sets |
| ReconcilePass.PassKeepsBlocked | internal/controller/operationruleset_controller.go:107-118 | a pass does not change whether the same findings block the next one |
| ReconcilePass.ReadyMeansNoError | internal/controller/operationruleset_controller.go:115-141 | without durable conditions Ready is left iff nothing was found, and never beside InvalidTarget, InvalidRule or WatchFailed |
| ReconcilePass.ReadyLeft | internal/controller/operationruleset_controller.go:115-141 | whatever is durable, Ready is left iff it was durable or the pass was not blocked and its setup did not fail, and then of the three error types exactly the durable ones are left |
| ReconcilePass.RepeatedPass | internal/controller/operationruleset_controller.go:107-141 | for every status a pass with the same findings changes nothing, at any later time |
| Reconcilers.DeletedRuleSetReturns | internal/controller/operationruleset_controller.go:88-118 | a deleted ruleset is out of the cache after its reconcile iff validation blocks it or its watch fails, and no other ruleset is affected |
| Reconcilers.Reconciler.ValidateExpressions | internal/controller/operationruleset_controller.go:283-295 | succeeds iff every rule and label expression compiles |
| Reconcilers.Reconciler.Validate | internal/controller/operationruleset_controller.go:151-188 | sets exactly the conditions of what validation finds |
| Reconcilers.Reconciler.Reconcile | internal/controller/operationruleset_controller.go:68-149 | conditions, caches, retry and watch status follow one pass over the findings, which are reported with status True and the source's reasons, Ready among them when nothing was found; a failed finalizer patch leaves the conditions alone |
| SubjectGroups.GroupsMatchSubjects | pkg/plugin/model/tree.go:27-44 | two IFOs share a node iff they share a non-empty subject UID, and no IFO is in a node twice |
| Forests.MergeSubjects | pkg/plugin/model/tree.go:24-44 | the nodes partition the list by subject: first IFO first, siblings in list order, nodes in order of first appearance |
| Forests.OwnerOfIsOwner | pkg/plugin/model/tree.go:48-54 | the parent chosen is the node of the first owner reference that names any listed subject, or none if no reference does |
| Forests.LinkOwners | pkg/plugin/model/tree.go:46-55 | every node gets that parent and is appended to its children once, also when it owns itself |
| Forests.FindRoots | pkg/plugin/model/tree.go:57-63 | the roots are exactly the nodes without a parent |
| Forests.BuildOwnerRefTrees | pkg/plugin/model/tree.go:23-66 | for every list, cyclic or not, each node has at most one parent, child lists mirror parent links without repeats, and the nodes hold all IFOs |
| OwnerGraph.AllRootedIffAcyclic | pkg/plugin/model/tree.go:46-63 | every node's owner chain ends at a root iff no node is its own ancestor |
| OwnerGraph.RootedIsOffCycle | pkg/plugin/model/tree.go:46-63 | nothing reachable from a root lies on a cycle |
| OwnerGraph.DepthIsBounded | pkg/plugin/model/types.go:33-39 | the depth below a root is less than the number of nodes, so every recursion from the roots ends |
| OwnerGraph.RootsListTheRooted | pkg/plugin/model/types.go:24-39 | reading the trees in preorder lists exactly the nodes whose owner chain ends at a root, each once |
| ForestWalks.CollectNodes | pkg/plugin/model/types.go:33-39 | lists a subtree in preorder, and ends |
| ForestWalks.AllNodes | pkg/plugin/model/types.go:24-31 | lists each node at most once, and exactly those whose owner chain ends at a root |
| Comparing.Compare3IsTransitive | pkg/plugin/model/tree.go:85-96 | the comparison by component, kind and name is transitive |
| Comparing.Compare3IsZero | pkg/plugin/model/tree.go:85-96 | it ties exactly for equal component, kind and name |
| Comparing.CompareIsBefore | pkg/plugin/model/tree.go:85-96 | a string compares below another iff it is a proper prefix, or has the smaller character at the first difference |
| ForestWalks.OrderedIsNotAfter | pkg/plugin/model/tree.go:85-96 | a node may stand before another iff its component is not the later one, for equal components its kind is not, and for equal kinds its name is not |
| ForestWalks.OrderedIsTotal | pkg/plugin/model/tree.go:85-96 | it is a total preorder on nodes |
| ForestWalks.SortChildren | pkg/plugin/model/tree.go:78-83 | permutes child lists only, and leaves every list of the subtree sorted |
| ForestWalks.SortForest | pkg/plugin/model/tree.go:70-96 | roots, orphans and every reachable child list end up permutations of themselves in ascending order of component, then kind, then name; parent links stay |
| Correlators.FindGroupRoot | pkg/plugin/model/correlate.go:66-84 | the earliest created node with the root role, or null iff there is none |
| Correlators.GroupRoots | pkg/plugin/model/correlate.go:26-41 | two roots are in one group iff they carry the same non-empty correlation-group label and their subjects are of one namespace; those without the label stay out; all in order |
| Correlators.Adopt | pkg/plugin/model/correlate.go:50-56 | the group's root becomes the parent of every other member, appended in order |
| Correlators.Correlate | pkg/plugin/model/correlate.go:26-61 | whatever changed its parent came under an earliest root of its group that carries the role root; of two roots of one group, one of which carries that role, at most one is left a root; the forest stays well formed, in any order of visiting groups |
| Adoption.LeaderIsOnlyRoot | pkg/plugin/model/correlate.go:43-58 | a group with a root-role node has one root left, an earliest one, which adopted all others; every other root stays a root |
| Adoption.LeaderAdoptsInOrder | pkg/plugin/model/correlate.go:50-56 | the leader's children are those it had, followed by all other members in root order |
| Adoption.AdoptionKeepsRooted | pkg/plugin/model/correlate.go:43-60 | regrouping makes no node reachable or unreachable |
| Adoption.AdoptionMirrors | pkg/plugin/model/correlate.go:53-56 | child lists still mirror parent links |
| Adoption.RegroupingTwice | pkg/plugin/model/correlate.go:26-61 | a second correlation adopts nothing: links and child lists are the same |
| ForestBuilder.BuildForest | pkg/plugin/model/tree.go:12-19 | the finished forest holds every IFO in a node; with any number of correlators exactly the roots of groups with a root-role node found new parents, each under an earliest such node of its label and namespace; reachability is that of the owner references, and all reachable lists ascend by component, kind and name |
| ForestBuilder.EveryIfoHeldOnce | pkg/plugin/model/tree.go:27-44 | each IFO of the list is in exactly one place of exactly one node |
| ForestBuilder.NodesAreSubjects | pkg/plugin/model/tree.go:27-44 | two IFOs are in one node iff they are one or their subjects have the same, non-empty UID |
| ForestBuilder.OwnerMeaning | pkg/plugin/model/tree.go:46-55 | a node's owner is the node of the first owner reference whose UID is that of a listed subject, or none |
| ForestBuilder.NothingIsLost | pkg/plugin/model/tree.go:12-66 | every node is listed iff owner references are acyclic; in general exactly those whose owner chain ends |
| ForestBuilder.CorrelatesOnce | pkg/plugin/model/tree.go:14-16 | a correlator after the first moves nothing |
| ForestBuilder.ListSelfOwned | pkg/plugin/model/tree.go:46-63 | for a single IFO whose subject owns itself the forest lists no node |
| Layout.LinesArePreorder | pkg/plugin/output/tree.go:127-150 | the printed lines are the nodes in preorder |
| Layout.LineOfPath | pkg/plugin/output/tree.go:108-150 | the line of every node draws its path from the root, four places a step: bars for branches that go on, blanks below last children, and a branch or corner at the end |
| Layout.JoinsInOrder | pkg/plugin/output/tree.go:154-166 | operations are joined by a comma and a blank |
| Layout.ColumnsInText | pkg/plugin/output/tree.go:134-136 | the operations and the age stand in the row's text where the columns say, with nothing but blanks before them |
| Layout.SortOperations | pkg/plugin/output/tree.go:154-166 | the text joins the node's operations in sorted order |
| Layout.OperationsWidth | pkg/plugin/output/tree.go:181-188 | the bytes of that text, computed from the operations alone, in whatever order they are joined |
| Layout.ComputeMaxWidth | pkg/plugin/output/tree.go:108-125 | the greatest width, prefixes by characters and subjects by bytes, over all lines of the subtree |
| Layout.ComputeMaxOpsWidth | pkg/plugin/output/tree.go:191-199 | the greatest operations width in the subtree |
| Layout.PrintSubtree | pkg/plugin/output/tree.go:127-150 | one row for every line, in order, padded to the columns |
| Layout.RowsAreAligned | pkg/plugin/output/tree.go:134-136 | in columns wide enough padding is at least 2, and operations and ages start at one place less the bytes before them that are not characters |
| Layout.AlignedIffAscii | pkg/plugin/output/tree.go:134-136 | a row is exactly in the columns iff its subject, and for the age also its operations, are ASCII |
| Layout.AccentMisaligns | pkg/plugin/output/tree.go:134-136 | two pods of which one has an accented name are printed one place apart, in whatever columns fit |
| ForestPrinter.ComputeColumns | pkg/plugin/output/tree.go:36-51 | the columns fit every line of every tree, and no narrower ones would |
| ForestPrinter.GroupRoots | pkg/plugin/output/tree.go:58-78 | roots are grouped by component and namespace in forest order, components in the order first seen |
| ForestPrinter.PrintForest | pkg/plugin/output/tree.go:28-95 | one block per component, its namespaces each once in sorted order, and under each the rows of its roots |
| ForestPrinter.ForestIsAligned | pkg/plugin/output/tree.go:28-95 | every row of the whole forest starts its operations, and its age, in the same columns iff what stands before is ASCII |
| ForestPrinter.RootHasOnePlace | pkg/plugin/output/tree.go:58-78 | exactly one namespace of one block is a root's |
| ForestPrinter.RootsInOneSection | pkg/plugin/output/tree.go:58-78 | a root is in its own section as often as in the forest, and in no other |
| ForestPrinter.SectionInOrder | pkg/plugin/output/tree.go:58-78 | under each pair of headings come exactly the roots of that component and namespace, in forest order, with "(none)" and "(cluster-scoped)" for empty ones |
| ForestPrinter.ComponentsInOrder | pkg/plugin/output/tree.go:66-72 | components come in the order of the first roots that have them |
| PrintedNodes.NamespacesAscend | pkg/plugin/output/tree.go:87-88 | the namespaces of a component ascend |
| PrintedNodes.EveryEntryIsPrinted | pkg/plugin/output/tree.go:58-95 | over all blocks and namespaces the rows show every node of every tree, as often as it is there, and nothing else |
| PrintedNodes.ListedNodesArePrinted | pkg/plugin/output/tree.go:28-95 | for a forest of linked nodes there is one row for every node whose owner chain ends at a root, with its subject, its and its siblings' operations and the age of the oldest, and no other row |
| PrintedNodes.RowMeaning | pkg/plugin/output/tree.go:127-177 | a node's row reads kind/name, its and its siblings' operations in ascending order, and the age of the oldest of these IFOs |

## Left out

- The Kubernetes client, informers, discovery, caches and write conflicts: the API server is one
  atomic store with generated names, discovery and the finalizer patch are parameters of `Reconcile`,
  and DeleteAllOf is atomic.
- Time: one clock reading per event, in whole seconds; timeouts and requeue intervals are not modelled.
- CEL: compiling and evaluating are arbitrary partial functions of the expression and the subject's content.
- Label values: the limits Kubernetes puts on their length and characters.
- Locks of the rule cache and the watch cache: their methods are atomic here. The program cache's locks are modelled.
- The watch cache's StartWithSync and the rule cache's AddRule: no caller in the operator's own paths.
- DeleteCondition, UpdateConditions, IsReady and the remaining Has functions of the condition list.
- Metrics other than the two gauges of the caches, logging, and message texts, which are parameters.
- `Watcher` is modelled as two classes, one for handling events and one (`WatchRegistry`) for registering watches; `handle` and `Reconcile` are split over several methods.
- The rule cache and the watch cache are generic in target, name and content of a ruleset, which they never look into.
- The printing methods walk trees as values rather than the linked nodes; `PrintedNodes` says which trees those are. Colours, PrintTree and the formatting of ages are left out; an age is any function of the oldest creation time.
- Go strings may be invalid UTF-8; the model's strings are sequences of characters, whose UTF-8 length is what `len` counts.
- `strings.Compare` compares bytes; the model compares code points, which is the same for valid UTF-8.
- The command line, settings, client, CSV, table and YAML parts of the plugin, and the rulesets themselves: data and plumbing.
