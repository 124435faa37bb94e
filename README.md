# inclusive-ccam: a verified model of the sweep drivers and the equity-aware valuation

This project models two groups of logic in inclusive-ccam. The repository sits on top of the
MATSim DRT simulation engine.

- **Equity-aware valuation** (`stop_time.dfy`, `rejection_penalty.dfy`,
  `fair_insertion_cost.dfy`):
  - The user-specific stop-time provider takes the largest `drtInteractionTime` of a
    request's passengers, or 60 seconds when none is set. The dropoff duration is 0.
  - The fair insertion cost divides the dispatcher's cost by that stop duration.
  - The inclusive rejection penalty weighs a request by its pickup duration over the
    population's lowest interaction time. It scales the weight by alpha when the ratio
    is above 1.
- **The benchmark sweep** (`benchmark_grid.dfy`, `benchmark_registry.dfy`,
  `benchmark_scheduler.dfy`, `run_benchmark.dfy`):
  - The ten-dimensional parameter grid, with its override rules and output-directory
    names.
  - The task map, which skips completed directories and lets the last write win.
  - The slot scheduler that launches the simulations `parallel-sims` at a time and stops
    on the first non-zero exit.
  - The forced termination of live processes and the final deletion of events files.
- **The fleet-sizing sweep** (`run_fleet_sizing.dfy`): one simulation per fleet size
  50, 100, ..., 1000, skipping completed directories.
- **The scenario preparation of one simulation** (`run_simulation.dfy`):
  - the option defaults;
  - the vehicles file of every DRT mode;
  - clearing the routes of DRT legs;
  - the seeded draw that gives every person a regular (60 s) or vulnerable interaction
    time.

Shared pieces:
- `wrappers.dfy`: `Option` and `Result`.
- `population.dfy`: persons, attributes and plans.
- `text.dfy`: number printing, kept abstract, plus path and name building.
- `collections.dfy`: hash-collection iteration orders.

Modelling choices:
- Doubles are `real`.
- The file system is a `set<string>` of existing paths.
- Number-to-string conversions are the function fields of `Text.Show`. The lemmas that
  need it assume only that the conversions print no underscore and are injective on
  integers and on the doubles in play (the declared grid holds 30). Such a printing
  exists for every finite set of doubles.
- A launched process is an abstract handle. A `Host` says how many polls each process
  stays alive and which exit value it returns.
- Hash-set and hash-map iteration orders are parameters, and every property holds for
  every order.
- The model follows the code as written:
  - The skip check happens per combination, inside the registration loop.
  - The final cleanup tries to delete the events file of every registered directory,
    launched or not.
  - Under `no-sim`, the deletions made by the skip branch have already happened when
    the driver returns.
  - `prebook-vulnerable` neutralises the prebooking share only when the vulnerable
    probability is positive.

## Model

| member | source | states |
|---|---|---|
| Population.DoubleAttribute | src/main/java/org/sinfonica/inclusive_ccam/heterogenous_users/drt/UserSpecificStopTimeProvider.java:37-40 | a person contributes a value exactly when the attribute is present and a Double, and then contributes that Double |
| UserSpecificStopTime.InteractionTimes | src/main/java/org/sinfonica/inclusive_ccam/heterogenous_users/drt/UserSpecificStopTimeProvider.java:35-40 | the stream holds exactly the Double values of the listed passengers |
| UserSpecificStopTime.MaxOr | src/main/java/org/sinfonica/inclusive_ccam/heterogenous_users/drt/UserSpecificStopTimeProvider.java:41 | the result is the fallback for an empty stream, otherwise one of its values that is at least every value |
| UserSpecificStopTime.CalcStopDuration | src/main/java/org/sinfonica/inclusive_ccam/heterogenous_users/drt/UserSpecificStopTimeProvider.java:34-42 | at least every passenger's Double time; equal to one of them when any exists; exactly 60 when none exists, an empty passenger list included |
| UserSpecificStopTime.CalcPickupDuration | src/main/java/org/sinfonica/inclusive_ccam/heterogenous_users/drt/UserSpecificStopTimeProvider.java:25-27 | the pickup duration is the stop duration of the request's passengers |
| UserSpecificStopTime.CalcDropoffDuration | src/main/java/org/sinfonica/inclusive_ccam/heterogenous_users/drt/UserSpecificStopTimeProvider.java:30-32 | the dropoff duration is 0 for every vehicle and request |
| UserSpecificStopTime.StopDurationIgnoresOrderAndDuplicates | src/main/java/org/sinfonica/inclusive_ccam/heterogenous_users/drt/UserSpecificStopTimeProvider.java:34-41 | two passenger lists with the same members give the same stop duration, whatever their order and repetitions |
| UserSpecificStopTime.FallbackIsNotAFloor | src/main/java/org/sinfonica/inclusive_ccam/heterogenous_users/drt/UserSpecificStopTimeProvider.java:38-41 | when some passenger has a value and all values are below 60, the stop duration is below 60 |
| UserSpecificStopTime.PickupIgnoresVehicle | src/main/java/org/sinfonica/inclusive_ccam/heterogenous_users/drt/UserSpecificStopTimeProvider.java:25-27 | the vehicle argument never changes the pickup duration |
| InclusiveRejectionPenalty.MinOr | src/main/java/org/sinfonica/inclusive_ccam/heterogenous_users/drt/InclusiveRejectionPenalty.java:21 | minimum or fallback: the fallback for no values, otherwise a value that is at most every value |
| InclusiveRejectionPenalty.LowestInteractionTime | src/main/java/org/sinfonica/inclusive_ccam/heterogenous_users/drt/InclusiveRejectionPenalty.java:21 | 60 when nobody has a Double under the key; otherwise the value of some person and at most every person's value |
| InclusiveRejectionPenalty.CreateWithKey | src/main/java/org/sinfonica/inclusive_ccam/heterogenous_users/drt/InclusiveRejectionPenalty.java:18-27 | construction fails with the provider's class name exactly when the provider is not the user-specific one; otherwise all five fields are stored, with the lowest time read under the given key |
| InclusiveRejectionPenalty.CreateAsWritten | src/main/java/org/sinfonica/inclusive_ccam/heterogenous_users/drt/InclusiveRejectionPenalty.java:18-27 | the constructor as written reads its lowest time under the misspelled key |
| InclusiveRejectionPenalty.Create | src/main/java/org/sinfonica/inclusive_ccam/heterogenous_users/drt/InclusiveRejectionPenalty.java:18-27 | the corrected constructor: same failure rule; the lowest time is read under the key the writers use |
| InclusiveRejectionPenalty.CreateDefaultAlpha | src/main/java/org/sinfonica/inclusive_ccam/heterogenous_users/drt/InclusiveRejectionPenalty.java:29-31 | the four-argument constructor is the five-argument one as written (misspelled key) with alpha 1.0: it fails exactly when the provider is not the user-specific one and otherwise stores alpha 1.0 |
| InclusiveRejectionPenalty.Weight | src/main/java/org/sinfonica/inclusive_ccam/heterogenous_users/drt/InclusiveRejectionPenalty.java:35-39 | the weight is duration / lowest when that ratio is at most 1, and alpha times the ratio above 1 |
| InclusiveRejectionPenalty.GetPenalty | src/main/java/org/sinfonica/inclusive_ccam/heterogenous_users/drt/InclusiveRejectionPenalty.java:34-44 | an assigned request costs the unassignment penalty times the weight of its pickup duration; any other request costs the base rejection penalty times that weight |
| InclusiveRejectionPenalty.AlphaIrrelevantAtOrBelowOne | src/main/java/org/sinfonica/inclusive_ccam/heterogenous_users/drt/InclusiveRejectionPenalty.java:36-39 | when the ratio is at most 1, changing alpha never changes the penalty |
| InclusiveRejectionPenalty.DefaultAlphaIsPlainRatio | src/main/java/org/sinfonica/inclusive_ccam/heterogenous_users/drt/InclusiveRejectionPenalty.java:29-39 | with the four-argument constructor the weight is the plain ratio of the duration to the lowest time read under the misspelled key, for every duration |
| InclusiveRejectionPenalty.DefaultAlphaDividesBySixty | src/main/java/org/sinfonica/inclusive_ccam/heterogenous_users/drt/InclusiveRejectionPenalty.java:21-39 | as written, the four-argument constructor weighs every duration by duration / 60 when nobody carries the misspelled key |
| InclusiveRejectionPenalty.MissingKeyGivesFallback | src/main/java/org/sinfonica/inclusive_ccam/heterogenous_users/drt/InclusiveRejectionPenalty.java:21 | a population in which nobody carries the key read has lowest time 60, whatever its other attributes hold |
| InclusiveRejectionPenalty.RejectionPenaltyExample | src/main/java/org/sinfonica/inclusive_ccam/heterogenous_users/drt/InclusiveRejectionPenalty.java:34-44 | lowest 60, pickup 240, alpha 2: an unassigned request with base 10 costs 80, and an assigned one with unassignment penalty 5 costs 40 |
| InclusiveRejectionPenalty.AsWrittenScalesUniformPopulation | src/main/java/org/sinfonica/inclusive_ccam/heterogenous_users/drt/InclusiveRejectionPenalty.java:21 | as written, a population whose only person has 240 s gets lowest time 60, so a request at the population minimum is scaled by alpha (penalty 80 instead of 10) |
| InclusiveRejectionPenalty.CorrectedMinimumIsUnscaled | src/main/java/org/sinfonica/inclusive_ccam/heterogenous_users/drt/InclusiveRejectionPenalty.java:21-43 | corrected: a request whose passengers all sit at the population minimum costs the unscaled penalty, whatever alpha is |
| InclusiveRejectionPenalty.CorrectedWeightAtLeastOne | src/main/java/org/sinfonica/inclusive_ccam/heterogenous_users/drt/InclusiveRejectionPenalty.java:21-39 | corrected: when the lowest time is positive, a request with an interaction time has a ratio of at least 1, so only requests above the minimum are scaled by alpha |
| FairInsertionCost.Create | src/main/java/org/sinfonica/inclusive_ccam/heterogenous_users/drt/FairInsertionCostCalculator.java:13-17 | the calculator keeps the soft-constraint strategy it creates as its delegate, and the provider's population |
| FairInsertionCost.CalcCost | src/main/java/org/sinfonica/inclusive_ccam/heterogenous_users/drt/FairInsertionCostCalculator.java:20-23 | the cost times the stop duration is the delegate's cost for the unchanged request, insertion and detour times |
| FairInsertionCost.NoInteractionTimeDividesBySixty | src/main/java/org/sinfonica/inclusive_ccam/heterogenous_users/drt/FairInsertionCostCalculator.java:22 | a request without any passenger interaction time costs the delegate's cost divided by 60 |
| FairInsertionCost.LongerStopNeverCostsMore | src/main/java/org/sinfonica/inclusive_ccam/heterogenous_users/drt/FairInsertionCostCalculator.java:21-22 | with a non-negative delegate cost, a longer stop duration never gives a larger cost |
| FairInsertionCost.InsertionCostExample | src/main/java/org/sinfonica/inclusive_ccam/heterogenous_users/drt/FairInsertionCostCalculator.java:21-22 | delegate cost 30 gives 0.5 for a 60-second stop and 0.125 for a 240-second stop |
| Text.ParseBoolean | src/main/java/org/sinfonica/inclusive_ccam/RunBenchmark.java:145 | `Boolean.parseBoolean`: true exactly for the four-letter strings that spell "true" in any case; properties in ParseBooleanExamples |
| Text.PathOf | src/main/java/org/sinfonica/inclusive_ccam/RunBenchmark.java:108-110 | definition of `Path.of(dir, name)` for a relative directory: the two joined by "/"; properties in BenchmarkRegistry.MarkerIsNotEvents |
| Text.VehiclesFile | src/main/java/org/sinfonica/inclusive_ccam/RunSimulation.java:75 | definition: `drt_vehicles_<fleet size>.xml.gz`; properties in RunSimulation.SetVehiclesFiles and RunSimulation.FleetSizingRunsUseDefaultFleet |
| Text.ParseBooleanExamples | src/main/java/org/sinfonica/inclusive_ccam/RunBenchmark.java:145 | only a spelling of "true" parses as true; the absent option's "false" does not |
| Text.WellFormedIsSatisfiable | src/main/java/org/sinfonica/inclusive_ccam/RunBenchmark.java:102-106 | for any finite set of doubles there is a number printing that prints no underscore and is injective on integers and on those doubles, so the lemmas that assume it are not vacuous |
| BenchmarkGrid.DeclaredLists | src/main/java/org/sinfonica/inclusive_ccam/RunBenchmark.java:43-56 | definition: the ten declared value lists, alpha last; properties in DeclaredGridSize, DeclaredGridWellTyped and DeclaredGridReals |
| BenchmarkGrid.WeightFactorValues | src/main/java/org/sinfonica/inclusive_ccam/RunBenchmark.java:52-56 | the alpha dimension has 20 values: 100, 200, ..., 1900 from the loop, then 1.0 |
| BenchmarkGrid.ProductSize | src/main/java/org/sinfonica/inclusive_ccam/RunBenchmark.java:62 | the cartesian product has as many lists as the product of the dimension sizes |
| BenchmarkGrid.ProductMembers | src/main/java/org/sinfonica/inclusive_ccam/RunBenchmark.java:62 | a list is in the product exactly when it takes one value from each dimension, in dimension order |
| BenchmarkGrid.DeclaredGridSize | src/main/java/org/sinfonica/inclusive_ccam/RunBenchmark.java:43-62 | whatever order the hash sets iterate in, the sweep enumerates 11520 raw combinations |
| BenchmarkGrid.DeclaredGridWellTyped | src/main/java/org/sinfonica/inclusive_ccam/RunBenchmark.java:63-72 | every raw combination passes the casts at the head of the loop |
| BenchmarkGrid.DeclaredGridReals | src/main/java/org/sinfonica/inclusive_ccam/RunBenchmark.java:43-106 | every raw combination of the declared grid passes the casts, and its effective combination holds only doubles from the declared lists |
| BenchmarkGrid.Decode | src/main/java/org/sinfonica/inclusive_ccam/RunBenchmark.java:63-72 | definition: the casts of the ten positions into one combination; properties in DeclaredGridWellTyped |
| BenchmarkGrid.EarlyOverrides | src/main/java/org/sinfonica/inclusive_ccam/RunBenchmark.java:67-71 | definition: the overrides applied while reading (dispatch interval 1, no delay minimisation under Alonso-Mora, no penalty without it); properties in Overrides and DirectoryWrittenBeforeLateOverrides |
| BenchmarkGrid.Overrides | src/main/java/org/sinfonica/inclusive_ccam/RunBenchmark.java:67-100 | the effective combination satisfies every override rule, keeps fleet size, algorithm, probability, time and alpha, and is the input itself when the input already satisfies the rules |
| BenchmarkGrid.OverridesIdempotent | src/main/java/org/sinfonica/inclusive_ccam/RunBenchmark.java:67-100 | applying the overrides twice gives the same combination as applying them once |
| BenchmarkGrid.OverridesAbsorbNeutralisedValues | src/main/java/org/sinfonica/inclusive_ccam/RunBenchmark.java:67-100 | changing a value that a rule neutralises (dispatch interval or delay minimisation under Alonso-Mora, the penalty flag without it, prebooking of the vulnerable at probability 0, the share when they prebook) leaves the effective combination unchanged |
| BenchmarkGrid.Segments | src/main/java/org/sinfonica/inclusive_ccam/RunBenchmark.java:77-106 | definition: the eight underscore-separated parts of the directory name; properties in SegmentsHaveNoUnderscore and SameDirectoryIffSameExperiment |
| BenchmarkGrid.OutputDirectory | src/main/java/org/sinfonica/inclusive_ccam/RunBenchmark.java:77-106 | definition: the base path, "/", then the parts joined by underscores; properties in SameExperimentSameDirectory, SameDirectoryIffSameExperiment and DirectoryWrittenBeforeLateOverrides |
| BenchmarkGrid.SegmentsHaveNoUnderscore | src/main/java/org/sinfonica/inclusive_ccam/RunBenchmark.java:77-106 | when number printing writes no underscore, no part of the name holds one, so the underscores are exactly the separators |
| BenchmarkGrid.DirectoryWrittenBeforeLateOverrides | src/main/java/org/sinfonica/inclusive_ccam/RunBenchmark.java:77-106 | naming the directory before the prebooking overrides gives the same name as naming it after all overrides |
| BenchmarkGrid.SameExperimentSameDirectory | src/main/java/org/sinfonica/inclusive_ccam/RunBenchmark.java:77-106 | two combinations naming the same experiment share an output directory, whatever the number printing |
| BenchmarkGrid.SameDirectoryIffSameExperiment | src/main/java/org/sinfonica/inclusive_ccam/RunBenchmark.java:77-106 | two effective combinations share an output directory exactly when they agree on every field the name shows, given number printing that is injective on integers and on the doubles the two combinations hold |
| BenchmarkGrid.SimArgs | src/main/java/org/sinfonica/inclusive_ccam/RunBenchmark.java:122-136 | the 26 arguments of one simulation, each value printed by `String.valueOf`; properties in CollidingArgumentsDifferOnlyInDroppedValues and RunSimulation.BenchmarkRunsUseTheirFleet |
| BenchmarkGrid.CollidingArgumentsDifferOnlyInDroppedValues | src/main/java/org/sinfonica/inclusive_ccam/RunBenchmark.java:122-136 | colliding experiments launch the same arguments except, possibly, the vulnerable time and alpha |
| BenchmarkGrid.CollisionWithDifferentAlpha | src/main/java/org/sinfonica/inclusive_ccam/RunBenchmark.java:102-135 | with the penalty off, alphas 100 and 200 share one directory yet launch different `--am-weight-alpha` values, whenever 100.0 and 200.0 print differently |
| BenchmarkRegistry.Marker | src/main/java/org/sinfonica/inclusive_ccam/RunBenchmark.java:110 | definition: the `modestats.csv` path of a directory; properties in MarkerIsNotEvents and RunBenchmark.CompletedDirectoriesStayCompleted |
| BenchmarkRegistry.Events | src/main/java/org/sinfonica/inclusive_ccam/RunBenchmark.java:108 | definition: the `output_events.xml.gz` path of a directory; properties in MarkerIsNotEvents and RunBenchmark.DeleteEventsFiles |
| BenchmarkRegistry.MarkerIsNotEvents | src/main/java/org/sinfonica/inclusive_ccam/RunBenchmark.java:108-110 | a completion-marker path is never an events-file path |
| BenchmarkRegistry.KeyOf | src/main/java/org/sinfonica/inclusive_ccam/RunBenchmark.java:62-106 | definition: the output directory of a raw combination after the overrides; properties in SurvivorAgreesWithColliders |
| BenchmarkRegistry.ArgsOf | src/main/java/org/sinfonica/inclusive_ccam/RunBenchmark.java:122-136 | the arguments registered for a raw combination: 26 of them, the output directory being its key; properties in LastWriteWins |
| BenchmarkRegistry.Registered | src/main/java/org/sinfonica/inclusive_ccam/RunBenchmark.java:110-138 | definition: last-write-wins registration of every entry whose directory has no marker; properties in Register, RegisteredKeys and LastWriteWins |
| BenchmarkRegistry.SkipCleaned | src/main/java/org/sinfonica/inclusive_ccam/RunBenchmark.java:110-118 | definition: the existing events files of marked directories; properties in Register |
| BenchmarkRegistry.Register | src/main/java/org/sinfonica/inclusive_ccam/RunBenchmark.java:58-139 | the loop leaves the task map of last-write-wins registration of every unmarked key, and the files minus the existing, deletable events files of marked directories |
| BenchmarkRegistry.RegisteredKeys | src/main/java/org/sinfonica/inclusive_ccam/RunBenchmark.java:110-138 | a key is registered exactly when some combination produces it and its directory has no completion marker |
| BenchmarkRegistry.LastWriteWins | src/main/java/org/sinfonica/inclusive_ccam/RunBenchmark.java:138 | a registered key holds the arguments of the last combination that produces it |
| BenchmarkRegistry.SurvivorAgreesWithColliders | src/main/java/org/sinfonica/inclusive_ccam/RunBenchmark.java:122-138 | the surviving arguments agree with those of every combination with the same key, except possibly in the vulnerable time and alpha, given number printing injective on the doubles the combinations hold |
| BenchmarkScheduler.Visit | src/main/java/org/sinfonica/inclusive_ccam/RunBenchmark.java:174-192 | one slot visit launches at most the next queued task, and only into an empty slot, where it puts that task with no polls yet; it touches no other slot, keeps a raised `running` flag unless it fails, and a failure changes no slot |
| BenchmarkScheduler.PassFrom | src/main/java/org/sinfonica/inclusive_ccam/RunBenchmark.java:173-193 | the rest of a pass keeps the slot count, launches only queued tasks, leaves earlier slots alone and never reports both failure and `running` |
| BenchmarkScheduler.Pass | src/main/java/org/sinfonica/inclusive_ccam/RunBenchmark.java:172-193 | one pass over the slot array leaves exactly the slots, launch count and flags of the pass specification |
| BenchmarkScheduler.PassWork | src/main/java/org/sinfonica/inclusive_ccam/RunBenchmark.java:171-194 | a pass never adds pending work, and a pass that asks for another removes some, so the polling loop terminates |
| BenchmarkScheduler.Run | src/main/java/org/sinfonica/inclusive_ccam/RunBenchmark.java:170-194 | the loop keeps the slot count and never launches more tasks than are queued |
| BenchmarkScheduler.RunQueue | src/main/java/org/sinfonica/inclusive_ccam/RunBenchmark.java:157-194 | the polling loop over a fresh array of `parallelSims` empty slots ends in exactly the state of the loop specification |
| BenchmarkScheduler.RunConsistent | src/main/java/org/sinfonica/inclusive_ccam/RunBenchmark.java:173-193 | each occupied slot holds a launched task, no task occupies two slots, and a task leaves its slot only after exiting with 0 |
| BenchmarkScheduler.RunOutcome | src/main/java/org/sinfonica/inclusive_ccam/RunBenchmark.java:184-194 | the loop stops either on a slot holding an ended process with a non-zero exit, or with every slot empty; with the refilling loop and at least one slot, the second case means every task was launched |
| BenchmarkScheduler.RefillingRunsEveryTask | src/main/java/org/sinfonica/inclusive_ccam/RunBenchmark.java:170-194 | corrected loop: a sweep with at least one slot that does not fail launches every queued task and ends with all slots empty |
| BenchmarkScheduler.AsWrittenOneSlotStartsAtMostOne | src/main/java/org/sinfonica/inclusive_ccam/RunBenchmark.java:184-189 | as written, with one slot the loop never launches a second task |
| BenchmarkScheduler.OneSlotLeavesSecondTaskQueued | src/main/java/org/sinfonica/inclusive_ccam/RunBenchmark.java:170-194 | two tasks that exit with 0, one slot: the loop as written launches one and stops without failure; the corrected loop launches both |
| BenchmarkScheduler.TerminateLive | src/main/java/org/sinfonica/inclusive_ccam/RunBenchmark.java:196-200 | exactly the processes still alive are terminated |
| BenchmarkScheduler.TerminationAfterRun | src/main/java/org/sinfonica/inclusive_ccam/RunBenchmark.java:196-200 | after a loop without failure nothing is left alive to terminate; after a failure the failing task is not among the terminated ones |
| BenchmarkScheduler.RunAndTerminate | src/main/java/org/sinfonica/inclusive_ccam/RunBenchmark.java:170-200 | the launch count and failure are those of the loop specification, and the terminated tasks are exactly those still alive when it stops; so at most the queued tasks are launched and only launched ones are killed; without failure nothing is killed and every launched task exited with 0; the refilling loop without failure launches every task; the loop as written with one slot launches at most one; a failure names a launched task with a non-zero exit |
| Collections.IterationOrder | src/main/java/org/sinfonica/inclusive_ccam/RunBenchmark.java:159 | the queue lists every registered task exactly once |
| RunBenchmark.SweepOf | src/main/java/org/sinfonica/inclusive_ccam/RunBenchmark.java:60-123 | definition: base output path (default "outputs"), configuration path and number printing; properties in RunSweep |
| RunBenchmark.ParallelSims | src/main/java/org/sinfonica/inclusive_ccam/RunBenchmark.java:141 | definition: the `parallel-sims` option, default 1; properties in RunSweep |
| RunBenchmark.NoSim | src/main/java/org/sinfonica/inclusive_ccam/RunBenchmark.java:145 | definition: the `no-sim` option parsed by `Boolean.parseBoolean`, default "false"; properties in RunSweep |
| RunBenchmark.Grid | src/main/java/org/sinfonica/inclusive_ccam/RunBenchmark.java:43-62 | the raw grid has 11520 combinations, all passing the casts, whose effective combinations hold only declared doubles |
| RunBenchmark.SweepTasks | src/main/java/org/sinfonica/inclusive_ccam/RunBenchmark.java:58-139 | definition: the registry's task map over the grid; properties in BenchmarkRegistry.Register, RegisteredKeys and LastWriteWins |
| RunBenchmark.FilesAfterRegistry | src/main/java/org/sinfonica/inclusive_ccam/RunBenchmark.java:110-118 | definition: the files minus the deletable events files the skip branch removes; properties in BenchmarkRegistry.Register and CompletedDirectoriesStayCompleted |
| RunBenchmark.DeleteEventsFiles | src/main/java/org/sinfonica/inclusive_ccam/RunBenchmark.java:202-209 | the final loop removes the events file of every registered key, except those whose deletion fails |
| RunBenchmark.Execute | src/main/java/org/sinfonica/inclusive_ccam/RunBenchmark.java:156-209 | for either loop: the launched keys are the first ones of the map's iteration order, as many as the loop specification starts, each registered and launched once; the terminated keys are exactly the launched ones still alive when the loop stops, none after a run without failure; every launched key exited with 0 unless the run failed; with the refilling loop a run without failure launches every key; the loop as written with one slot launches at most one; the final files lack every deletable events file of a registered key and keep every other file |
| RunBenchmark.RunSweep | src/main/java/org/sinfonica/inclusive_ccam/RunBenchmark.java:58-209 | a negative parallelism fails only when simulations are requested, after the registry deletions; `no-sim` returns the registry's task map and files and launches nothing; otherwise the execution guarantees of the loop as written hold for the registered tasks, every process still alive when it stops is terminated, and with `parallel-sims` 1 at most one task is launched |
| RunBenchmark.CompletedDirectoriesStayCompleted | src/main/java/org/sinfonica/inclusive_ccam/RunBenchmark.java:110-120 | a completion marker present at the start is still present after the sweep, so a rerun skips that directory again |
| RunFleetSizing.FleetSizes | src/main/java/org/sinfonica/inclusive_ccam/RunFleetSizing.java:19 | the fleet sizes are 50, 100, ..., 1000 in that order |
| RunFleetSizing.Directory | src/main/java/org/sinfonica/inclusive_ccam/RunFleetSizing.java:21-25 | definition: `outputs_fleet_sizing/output_<%.1f probability>_<%d time>_<fleet size>`; properties in DirectoriesDistinct |
| RunFleetSizing.SimArgsAsWritten | src/main/java/org/sinfonica/inclusive_ccam/RunFleetSizing.java:32-39 | the 12 arguments the driver passes: no `--fleet-size`, the size only in the vehicles-file override; properties in DirectoriesDistinct and RunSimulation.FleetSizingRunsUseDefaultFleet |
| RunFleetSizing.SimArgs | src/main/java/org/sinfonica/inclusive_ccam/RunFleetSizing.java:32-39 | corrected: the written arguments followed by `--fleet-size` and the fleet size |
| RunFleetSizing.RunSweep | src/main/java/org/sinfonica/inclusive_ccam/RunFleetSizing.java:19-40 | the driver makes exactly the calls, with the arguments as written, of the pending fleet sizes, in order |
| RunFleetSizing.Pending | src/main/java/org/sinfonica/inclusive_ccam/RunFleetSizing.java:20-30 | definition: the listed sizes, in order, whose directory has no marker; properties in PendingMembers and PendingAscending |
| RunFleetSizing.Calls | src/main/java/org/sinfonica/inclusive_ccam/RunFleetSizing.java:19-39 | definition: the as-written arguments of each pending size; properties in RunSweep and CallsInAscendingFleetSize |
| RunFleetSizing.PendingMembers | src/main/java/org/sinfonica/inclusive_ccam/RunFleetSizing.java:20-30 | a fleet size runs exactly when it is listed and its directory has no completion marker |
| RunFleetSizing.PendingAscending | src/main/java/org/sinfonica/inclusive_ccam/RunFleetSizing.java:19-30 | skipping completed sizes keeps the run order strictly ascending |
| RunFleetSizing.CallsInAscendingFleetSize | src/main/java/org/sinfonica/inclusive_ccam/RunFleetSizing.java:19-39 | the driver's calls, as written, are one per pending size, in strictly ascending order, for exactly the multiples of 50 up to 1000 whose directory is incomplete |
| RunFleetSizing.DirectoriesDistinct | src/main/java/org/sinfonica/inclusive_ccam/RunFleetSizing.java:21-36 | with integer printing injective, different fleet sizes get different directories, and each run as written is told the probability and time strings its directory is named after |
| RunSimulation.FlagValue | src/main/java/org/sinfonica/inclusive_ccam/RunSimulation.java:54 | definition: the value after the first `--<name>` when the arguments are read in pairs; properties in FlagAbsent and FlagAt |
| RunSimulation.OptionsOf | src/main/java/org/sinfonica/inclusive_ccam/RunSimulation.java:54-95 | definition: the seed, fleet-size, probability and time options, each absent or parsed; properties in Defaults and FleetSizingRunsUseDefaultFleet |
| RunSimulation.RandomSeed | src/main/java/org/sinfonica/inclusive_ccam/RunSimulation.java:54 | definition: the seed option, default 1234; properties in Defaults |
| RunSimulation.FleetSize | src/main/java/org/sinfonica/inclusive_ccam/RunSimulation.java:72 | definition: the fleet-size option, default 100; properties in Defaults, FleetSizingRunsUseDefaultFleet and BenchmarkRunsUseTheirFleet |
| RunSimulation.VulnerableProbability | src/main/java/org/sinfonica/inclusive_ccam/RunSimulation.java:94 | definition: the probability option, default 0; properties in Defaults and ProbabilityExtremes |
| RunSimulation.VulnerableTime | src/main/java/org/sinfonica/inclusive_ccam/RunSimulation.java:95 | definition: the vulnerable-time option, default 120; properties in Defaults and AssignedTimes |
| RunSimulation.Defaults | src/main/java/org/sinfonica/inclusive_ccam/RunSimulation.java:54-95 | without options a run uses seed 1234, 100 vehicles, probability 0 and vulnerable time 120 |
| RunSimulation.FleetSizingRunsUseDefaultFleet | src/main/java/org/sinfonica/inclusive_ccam/RunSimulation.java:72-75 | a fleet-sizing run as written has no `--fleet-size`, so its simulation uses 100 vehicles; with integer printing injective, that file differs from the one the driver named for every other size |
| RunSimulation.FleetSizingCallsUseDefaultFleet | src/main/java/org/sinfonica/inclusive_ccam/RunFleetSizing.java:19-39 | every call the fleet-sizing driver makes, as written, runs a simulation of 100 vehicles |
| RunSimulation.FleetSizingRunsUseTheirFleet | src/main/java/org/sinfonica/inclusive_ccam/RunFleetSizing.java:32-39 | with the corrected arguments each fleet-sizing run uses the fleet size, and vehicles file, of its directory |
| RunSimulation.BenchmarkRunsUseTheirFleet | src/main/java/org/sinfonica/inclusive_ccam/RunBenchmark.java:128 | every benchmark run's simulation uses the fleet size of its combination |
| RunSimulation.SetVehiclesFiles | src/main/java/org/sinfonica/inclusive_ccam/RunSimulation.java:74-80 | every mode's vehicles file becomes `drt_vehicles_<fleet size>.xml.gz` and its mode name stays |
| RunSimulation.ClearPlan | src/main/java/org/sinfonica/inclusive_ccam/RunSimulation.java:85-90 | a leg of a DRT mode loses its route and keeps its mode; every other element is unchanged |
| RunSimulation.ClearPlanIdempotent | src/main/java/org/sinfonica/inclusive_ccam/RunSimulation.java:85-90 | clearing twice is clearing once, and afterwards no DRT leg has a route |
| RunSimulation.TimeFor | src/main/java/org/sinfonica/inclusive_ccam/RunSimulation.java:100-103 | a person's interaction time is either the vulnerable time or 60 |
| RunSimulation.WithTime | src/main/java/org/sinfonica/inclusive_ccam/RunSimulation.java:104 | definition: the person with `drtInteractionTime` set to a Double, every other attribute kept; properties in AssignedTimes |
| RunSimulation.Scenario.ClearDrtRoutes | src/main/java/org/sinfonica/inclusive_ccam/RunSimulation.java:85-90 | the population keeps its persons; each person's selected plan loses its DRT routes, and nothing else changes |
| RunSimulation.Scenario.AssignInteractionTimes | src/main/java/org/sinfonica/inclusive_ccam/RunSimulation.java:98-105 | the population keeps its persons; the i-th person in iteration order gets the time of the i-th draw and is otherwise unchanged |
| RunSimulation.Prepare | src/main/java/org/sinfonica/inclusive_ccam/RunSimulation.java:53-105 | the options pick the fleet size, seed, probability and time; every vehicles file is set, DRT routes are cleared, then the seeded draws assign the times |
| RunSimulation.AssignedTimes | src/main/java/org/sinfonica/inclusive_ccam/RunSimulation.java:98-105 | every person holds a Double interaction time, the vulnerable one exactly when its draw is at or below the probability; other attributes and all plans are unchanged |
| RunSimulation.AssignmentDeterministic | src/main/java/org/sinfonica/inclusive_ccam/RunSimulation.java:98-105 | the same population, order and draws always give the same assignment |
| RunSimulation.ProbabilityExtremes | src/main/java/org/sinfonica/inclusive_ccam/RunSimulation.java:101 | with draws in [0, 1): probability 1 or more makes everyone vulnerable, a negative one nobody, and the default 0 only a person who draws exactly 0 |
| RunSimulation.AssignedStopDuration | src/main/java/org/sinfonica/inclusive_ccam/RunSimulation.java:98-105 | after the assignment a group's stop duration is 60 or the vulnerable time: 60 without a vulnerable member, the vulnerable time with one when it is at least 60 |
| RunSimulation.AsWrittenPenaltyIgnoresAssignment | src/main/java/org/sinfonica/inclusive_ccam/heterogenous_users/drt/InclusiveRejectionPenalty.java:21 | as written, the penalty's lowest time after the assignment is 60 whatever was drawn |
| RunSimulation.CorrectedPenaltyMinimum | src/main/java/org/sinfonica/inclusive_ccam/heterogenous_users/drt/InclusiveRejectionPenalty.java:21 | corrected: the lowest time is one of the assigned times and at most each of them |

## Left out

- UserSpecificStopTime.CalcStopDuration: requires every passenger id to be a person of the population (so do CalcPickupDuration and InclusiveRejectionPenalty.GetPenalty). For an unknown id the Java throws a NullPointerException at UserSpecificStopTimeProvider.java:37; dispatch requests carry only population members.
- FairInsertionCost.CalcCost: requires a non-zero stop duration. Java would return an infinity or NaN, which `real` cannot represent.
- InclusiveRejectionPenalty.Weight: requires a non-zero lowest time, for the same reason. So does InclusiveRejectionPenalty.GetPenalty.
- The delegate `RejectSoftConstraintViolations` is an uninterpreted function. Its internals are not part of this model.
- Process launching is not modelled:
  - the `java` binary and classpath lookup (RunBenchmark.java:151-168);
  - `inheritIO`;
  - the operating system's processes.

  A process is a handle whose lifetime and exit value come from `Host`.
- `destroyForcibly` is modelled only as the set of processes it is called on.
- BenchmarkScheduler.Run: every process ends after finitely many polls. A process that never ends, and so the liveness of the busy wait, is not modelled.
- An `IOException` from `start()` (RunBenchmark.java:178-183) is not modelled. Neither is the `RuntimeException` it becomes.
- RunBenchmark.Execute takes the loop as a parameter. RunBenchmark.RunSweep runs the loop as written; the corrected refilling loop (see Findings) is reached through Execute with `Refilling`.
- Command-line parsing belongs to the engine's `CommandLine`, which is not part of this model:
  - Options are read as "--name value" pairs, the first occurrence winning.
  - Required and allowed option checks are not modelled. RunSimulation.java:43-51 does not allow `--prebook-vulnerable`, `--prebooking-probability`, `--minimize-passenger-delays`, `--am-inclusive-penalty` or `--am-weight-alpha`, which RunBenchmark.java:130-135 passes. If `CommandLine` rejects options it was not told to allow, every benchmark simulation would exit with a non-zero value and the sweep would stop at the first one to finish. Whether it does depends on code outside this model.
  - The `--name=value` form and `--config:` overrides are not modelled.
- `Integer.parseInt` and `Double.parseDouble` are parameters. A malformed number (`NumberFormatException`) is not modelled.
- Floating-point formatting is abstract, through `Show`:
  - `String.valueOf`, `%s`, `%d` and `%.1f`;
  - the rounding of `%.1f`, which is therefore not assumed injective.

  Arithmetic is exact `real` arithmetic, and the alpha loop (RunBenchmark.java:53-55) is its 20 exact values.
- `Paths.get` and `Path.of` are string concatenation with "/". Path normalisation, such as a trailing separator in the base path, is not modelled.
- Console output is not modelled (the printed counts and the "Skipping" and "Couldn't remove" lines).
- `java.util.Random` is the stream of its `nextDouble` draws, a parameter per seed. Its generator is not modelled.
- RunSimulation: the engine and its wiring (RunSimulation.java:56-70, 92, 108-176) are not part of this model. Nor are the prebooking and rebalancing parameter sets added and removed at lines 76-78, or the `fair-costs` and `use-alonso-mora` options.
- RunFleetSizing.RunSweep logs the arguments as written; the corrected arguments are RunFleetSizing.SimArgs. The simulations run in-process. An exception thrown by one of them would end the sweep; the model records the calls as a log and does not model this.
- The files the fleet-sizing simulations write are not modelled. DirectoriesDistinct shows that no run can make another run's directory look complete.
- RunBenchmark.Execute: `produced`, the files the simulations write, is a parameter that is not tied to the directories of the launched keys; what a simulation writes is not part of this model.
- Hash-set and hash-map iteration orders are parameters (any duplicate-free order). No particular JVM order is modelled.

## Findings

| source | as written | input that shows it | evidently intended | confidence | as-written member | corrected member |
|---|---|---|---|---|---|---|
| src/main/java/org/sinfonica/inclusive_ccam/heterogenous_users/drt/InclusiveRejectionPenalty.java:21 | the lowest interaction time is read under "drtInteractionTIme", a key nobody writes, so it is always 60 | a population whose only person has drtInteractionTime 240, alpha 2, base penalty 10: a request at the population minimum gets weight 4 and penalty 80 | read "drtInteractionTime", so the minimum is 240, the weight is 1 and the penalty is 10 | high; not executed | InclusiveRejectionPenalty.AsWrittenScalesUniformPopulation | InclusiveRejectionPenalty.CorrectedMinimumIsUnscaled |
| src/main/java/org/sinfonica/inclusive_ccam/RunBenchmark.java:184-189 | freeing a slot after exit 0 does not keep the loop running, so a pass that only frees slots ends the sweep while tasks are still queued | `parallel-sims` 1 (the default) and two registered tasks that exit with 0: the first runs, the second is never launched, and the sweep ends without failure | an empty slot refills whenever tasks remain, until the queue is drained or a run fails | high; not executed | BenchmarkScheduler.OneSlotLeavesSecondTaskQueued | BenchmarkScheduler.RefillingRunsEveryTask |
| src/main/java/org/sinfonica/inclusive_ccam/RunFleetSizing.java:32-39 | the fleet size reaches the simulation only as a vehicles-file configuration override. The simulation then overwrites every vehicles file with the one of its own `--fleet-size` option (RunSimulation.java:72-75), which is absent and defaults to 100 | fleet size 50: the directory says 50 and the driver names `drt_vehicles_50.xml.gz`, but the simulation loads `drt_vehicles_100.xml.gz` | every fleet-sizing run simulates the fleet its directory is named after, as benchmark runs do by passing `--fleet-size` | high; not executed | RunSimulation.FleetSizingCallsUseDefaultFleet | RunSimulation.FleetSizingRunsUseTheirFleet |
