# Route optimizer of optaweb-vehicle-routing, modelled in Dafny

`RouteOptimizerImpl` sits between the vehicle-routing application and the
OptaPlanner solver. It keeps a travelling-salesman solution (`TspSolution`):

- a list of locations;
- one optional domicile (the depot);
- a list of visits, where each visit points back at its previous standstill
  (the domicile or another visit).

It also owns the handle of a solver that runs in the background. When the
user adds or removes a location, the optimizer does one of two things:

- while the solver is idle, it edits its own solution directly;
- while the solver runs, it queues problem fact changes, which the solver
  later applies to its own working copy.

Whenever it adopts a solution it extracts the route and publishes it. To
extract, it turns the back-links into a successor map and walks the map from
the domicile.

The project has five modules.

- `Tsp` (tsp.dfy) has the data: location ids, standstills, visits, solutions
  and the error conditions. It also has the list helpers the source relies on
  (`findFirst`, `removeIf`, `remove(index)`).
- `Extraction` (extraction.dfy) specifies `extractRoute` as the function
  `RouteOf`. It proves:
  - the successor map is last-writer-wins;
  - there is no route exactly when some visit is unconnected;
  - a domicile plus a chain of N visits yields N + 1 locations, in chain
    order, covering every location once.
- `Changes` (changes.dfy) specifies the three problem fact changes and their
  in-order application, as edits of a working solution. It proves:
  - the relink loop's quirks: only the first successor is repointed, and a
    null predecessor met first throws;
  - identities stay distinct;
  - the removal batch keeps the visits one chain from the domicile;
  - adding a location and then removing it restores the solution, when every
    visit already in the working solution is linked;
  - without that condition it can fail: two locations added in one batch and
    then the second removed make the relink loop dereference the first new
    visit's missing predecessor, which kills the solver.
- `Optimizer` (optimizer.dfy) is the optimizer as a state machine over
  values. The state holds:
  - the solver handle (`started`), with the background task's `taskDone` and
    `taskFailed` decided by the environment;
  - the solution;
  - the queue of pending changes;
  - the log of published routes.

  Every public operation is a function with its error cases. The state
  invariant `Valid` says that visit identities are distinct, that a task
  can only have failed once it has ended, that without a task nothing has
  ended and nothing is queued, and that the optimizer is idle only with no
  visits. Every request and solver event keeps it. Lemmas describe runs of
  several steps. One of them records a quirk of line 250: the last visit is
  dropped whatever its location. Removing an id that is not on the map after
  the first two adds therefore leaves the optimizer idle with two locations,
  a state the source treats as impossible.
- `Planner` (planner.dfy) has the objects the source updates in place:
  - the class `TspSolution`, whose methods edit its lists;
  - the class `RouteOptimizer`, whose methods reassign its fields;
  - `ExtractRoute`, with the source's two loops.

  Each method is proved to take exactly the step the value-level function
  describes. The unbounded walk of `extractRoute` is proved to terminate and
  to agree with `RouteOf`.

A visit's identity is modelled by a `key` drawn from a counter in the
solution. Java compares the visit objects by identity, both in the successor
map and in the relink loop. Distinct keys stand for distinct objects.

## Model

| member | source | states |
|---|---|---|
| Tsp.EmptySolution | optaweb-vehicle-routing-backend/src/main/java/org/optaweb/vehiclerouting/plugin/planner/RouteOptimizerImpl.java:74-80 | the empty solution (no locations, no visits, no domicile, score zero) has well-keyed visits |
| Tsp.IndexOfVisitAt | optaweb-vehicle-routing-backend/src/main/java/org/optaweb/vehiclerouting/plugin/planner/RouteOptimizerImpl.java:257-261 | the index found is that of a visit of the location with none before it; there is none exactly when no visit has the location |
| Tsp.IndexOfLocation | optaweb-vehicle-routing-backend/src/main/java/org/optaweb/vehiclerouting/plugin/planner/RouteOptimizerImpl.java:285-288 | the working copy found is the first location with the id; there is none exactly when the id is absent |
| Tsp.WithoutLocation | optaweb-vehicle-routing-backend/src/main/java/org/optaweb/vehiclerouting/plugin/planner/RouteOptimizerImpl.java:251 | every location with the id is gone and every other location keeps its multiplicity; without the id the list is unchanged |
| Tsp.WithoutLocationConcat | optaweb-vehicle-routing-backend/src/main/java/org/optaweb/vehiclerouting/plugin/planner/RouteOptimizerImpl.java:251 | removing from a concatenation removes from each part, so the locations that stay keep their order |
| Tsp.RemoveAt | optaweb-vehicle-routing-backend/src/main/java/org/optaweb/vehiclerouting/plugin/planner/RouteOptimizerImpl.java:240 | `remove(index)`: one element shorter; earlier elements stay and later ones shift down; the multiset loses exactly the removed element |
| Extraction.NextVisitMap | optaweb-vehicle-routing-backend/src/main/java/org/optaweb/vehiclerouting/plugin/planner/RouteOptimizerImpl.java:90-98 | the successor map of the first loop, each visit put under its previous standstill: it exists only when every visit is connected, and it only ever gains keys |
| Extraction.Follow | optaweb-vehicle-routing-backend/src/main/java/org/optaweb/vehiclerouting/plugin/planner/RouteOptimizerImpl.java:107-111 | the walk from a standstill along the successor map yields at most one location per step, starting with the location of the standstill's successor |
| Extraction.RouteOf | optaweb-vehicle-routing-backend/src/main/java/org/optaweb/vehiclerouting/plugin/planner/RouteOptimizerImpl.java:89-113 | `extractRoute`: a route exists only when every visit is connected; without a domicile it is empty; with one it starts at the domicile's location and has at most one more location than there are visits |
| Extraction.NextVisitMapAbsent | optaweb-vehicle-routing-backend/src/main/java/org/optaweb/vehiclerouting/plugin/planner/RouteOptimizerImpl.java:91-98 | the first loop gives up exactly when some visit has no previous standstill |
| Extraction.NextVisitMapLinks | optaweb-vehicle-routing-backend/src/main/java/org/optaweb/vehiclerouting/plugin/planner/RouteOptimizerImpl.java:90-98 | every entry of the successor map is a visit pointing back at its key; every visit's predecessor is a key |
| Extraction.NextVisitMapSize | optaweb-vehicle-routing-backend/src/main/java/org/optaweb/vehiclerouting/plugin/planner/RouteOptimizerImpl.java:90-98 | the map has at most one key per visit |
| Extraction.NextVisitMapLastWriter | optaweb-vehicle-routing-backend/src/main/java/org/optaweb/vehiclerouting/plugin/planner/RouteOptimizerImpl.java:93 | last writer wins: the entry for a standstill is the last visit pointing at it |
| Extraction.NextVisitMapKeeps | optaweb-vehicle-routing-backend/src/main/java/org/optaweb/vehiclerouting/plugin/planner/RouteOptimizerImpl.java:93 | an entry that no later visit overwrites survives |
| Extraction.RouteAbsentIffUnconnected | optaweb-vehicle-routing-backend/src/main/java/org/optaweb/vehiclerouting/plugin/planner/RouteOptimizerImpl.java:89-106 | no route exactly when some visit is unconnected; with all connected and no domicile, the empty route |
| Extraction.ChainSuccessors | optaweb-vehicle-routing-backend/src/main/java/org/optaweb/vehiclerouting/plugin/planner/RouteOptimizerImpl.java:90-98 | for visits forming a chain, the map sends each link of the chain to the next visit of the chain |
| Extraction.FollowChain | optaweb-vehicle-routing-backend/src/main/java/org/optaweb/vehiclerouting/plugin/planner/RouteOptimizerImpl.java:109-111 | walking the map from a link of the chain lists the locations of the rest of the chain, in order |
| Extraction.ChainRoute | optaweb-vehicle-routing-backend/src/main/java/org/optaweb/vehiclerouting/plugin/planner/RouteOptimizerImpl.java:103-112 | a domicile plus a chain of N visits, in any list order, gives the domicile's location and then the visits' locations in chain order: N + 1 locations |
| Extraction.ChainRouteCoversVisits | optaweb-vehicle-routing-backend/src/main/java/org/optaweb/vehiclerouting/plugin/planner/RouteOptimizerImpl.java:107-112 | that route starts at the domicile and, as a multiset, is the domicile plus every visit's location once |
| Extraction.RouteWithoutVisits | optaweb-vehicle-routing-backend/src/main/java/org/optaweb/vehiclerouting/plugin/planner/RouteOptimizerImpl.java:103-108 | without visits the route is the domicile's location alone, or empty without a domicile |
| Extraction.LocationsOfPermutation | optaweb-vehicle-routing-backend/src/main/java/org/optaweb/vehiclerouting/plugin/planner/RouteOptimizerImpl.java:110 | visit lists holding the same visits hold the same locations |
| Changes.AddVisit | optaweb-vehicle-routing-backend/src/main/java/org/optaweb/vehiclerouting/plugin/planner/RouteOptimizerImpl.java:211-228 | the add change: the location is appended and one unlinked visit of it is appended after the existing visits, which stay; the domicile stays; identities stay distinct and handed out |
| Changes.RelinkSuccessor | optaweb-vehicle-routing-backend/src/main/java/org/optaweb/vehiclerouting/plugin/planner/RouteOptimizerImpl.java:270-278 | the relink loop: it can only throw the null dereference, and when it passes the visit count is unchanged |
| Changes.RemoveVisit | optaweb-vehicle-routing-backend/src/main/java/org/optaweb/vehiclerouting/plugin/planner/RouteOptimizerImpl.java:255-281 | the visit change: only the visit list changes, even when it throws; it throws only "invalid request" or the null dereference; unless the visit was not found, one visit is gone |
| Changes.Apply | optaweb-vehicle-routing-backend/src/main/java/org/optaweb/vehiclerouting/plugin/planner/RouteOptimizerImpl.java:211-300 | one change on the working solution: the domicile is never touched; only the two removals can throw, and only with one of their three errors |
| Changes.ApplyAll | optaweb-vehicle-routing-backend/src/main/java/org/optaweb/vehiclerouting/plugin/planner/RouteOptimizerImpl.java:254-300 | the queued changes applied in submission order, stopping at the first throw: the domicile is never touched and the batch throws only one of the changes' errors |
| Changes.RemoveLocation | optaweb-vehicle-routing-backend/src/main/java/org/optaweb/vehiclerouting/plugin/planner/RouteOptimizerImpl.java:282-299 | the location change passes exactly when the id is present; on failure it throws "no working copy" and changes nothing; on success one location with the id goes and nothing else changes |
| Changes.RelinkFails | optaweb-vehicle-routing-backend/src/main/java/org/optaweb/vehiclerouting/plugin/planner/RouteOptimizerImpl.java:271-278 | the relink loop throws (a null dereference) exactly when a visit without a predecessor comes before every visit pointing at the removed one |
| Changes.RelinkFirst | optaweb-vehicle-routing-backend/src/main/java/org/optaweb/vehiclerouting/plugin/planner/RouteOptimizerImpl.java:271-278 | only the first visit pointing at the removed one is repointed at its predecessor; the loop breaks and later ones are untouched |
| Changes.RelinkNoSuccessor | optaweb-vehicle-routing-backend/src/main/java/org/optaweb/vehiclerouting/plugin/planner/RouteOptimizerImpl.java:271-278 | with every visit connected and none pointing at the removed one, the list is unchanged |
| Changes.RelinkShape | optaweb-vehicle-routing-backend/src/main/java/org/optaweb/vehiclerouting/plugin/planner/RouteOptimizerImpl.java:271-278 | a relink that passes keeps the length, identities and locations, and sets predecessors only to the removed visit's predecessor |
| Changes.ApplyKeepsWellKeyed | optaweb-vehicle-routing-backend/src/main/java/org/optaweb/vehiclerouting/plugin/planner/RouteOptimizerImpl.java:211-299 | each change keeps visit identities distinct and already handed out |
| Changes.ApplyAllKeepsWellKeyed | optaweb-vehicle-routing-backend/src/main/java/org/optaweb/vehiclerouting/plugin/planner/RouteOptimizerImpl.java:254-300 | a batch of changes keeps visit identities distinct |
| Changes.AddVisitEffect | optaweb-vehicle-routing-backend/src/main/java/org/optaweb/vehiclerouting/plugin/planner/RouteOptimizerImpl.java:211-228 | the add change appends exactly the location, and exactly one unlinked visit of it; existing entries and the domicile stay; until the visit is linked there is no route |
| Changes.RemoveVisitEffect | optaweb-vehicle-routing-backend/src/main/java/org/optaweb/vehiclerouting/plugin/planner/RouteOptimizerImpl.java:255-281 | the visit change throws "invalid request" exactly when no visit has the location, and then changes nothing; with all visits connected it cannot fail otherwise; on success the visit count drops by one, one occurrence of the location leaves the visits' locations, and nothing else changes |
| Changes.RemoveVisitKeepsChain | optaweb-vehicle-routing-backend/src/main/java/org/optaweb/vehiclerouting/plugin/planner/RouteOptimizerImpl.java:255-281 | on visits forming a chain, the visit change passes and leaves the chain with that visit cut out: its successor now points at its predecessor |
| Changes.RelinkCutChain | optaweb-vehicle-routing-backend/src/main/java/org/optaweb/vehiclerouting/plugin/planner/RouteOptimizerImpl.java:270-278 | once a chain's visit is out of the list, the relink passes and yields exactly the cut chain |
| Changes.ChainWithoutIsChain | optaweb-vehicle-routing-backend/src/main/java/org/optaweb/vehiclerouting/plugin/planner/RouteOptimizerImpl.java:270-278 | a chain with one visit cut out and the next one hung on the cut one's predecessor is again a chain |
| Changes.RemoveVisitKeepsConsistent | optaweb-vehicle-routing-backend/src/main/java/org/optaweb/vehiclerouting/plugin/planner/RouteOptimizerImpl.java:255-281 | on a chain, the visit change passes, keeps identities distinct and the visits one chain, drops one visit and one occurrence of the location, and changes nothing else |
| Changes.LocationRemovalKeepsConsistent | optaweb-vehicle-routing-backend/src/main/java/org/optaweb/vehiclerouting/plugin/planner/RouteOptimizerImpl.java:282-299 | once the visit is gone, removing the location makes the solution consistent again |
| Changes.RemovalKeepsConsistent | optaweb-vehicle-routing-backend/src/main/java/org/optaweb/vehiclerouting/plugin/planner/RouteOptimizerImpl.java:254-300 | on a consistent solution (a domicile, one chain of visits from it, exactly the domicile's and visits' locations), the two changes one after the other pass and leave a consistent solution with the location and one visit fewer |
| Changes.RemovalBatchSteps | optaweb-vehicle-routing-backend/src/main/java/org/optaweb/vehiclerouting/plugin/planner/RouteOptimizerImpl.java:254-300 | the queued removal batch is the visit change followed by the location change |
| Changes.RemovalBatchKeepsConsistent | optaweb-vehicle-routing-backend/src/main/java/org/optaweb/vehiclerouting/plugin/planner/RouteOptimizerImpl.java:254-300 | the queued removal batch on a consistent solution passes and keeps it consistent, with the location and one visit fewer and the same domicile |
| Changes.RemoveAddedVisit | optaweb-vehicle-routing-backend/src/main/java/org/optaweb/vehiclerouting/plugin/planner/RouteOptimizerImpl.java:255-281 | the visit change for a location just added takes away exactly the new visit |
| Changes.RemoveAddedLocation | optaweb-vehicle-routing-backend/src/main/java/org/optaweb/vehiclerouting/plugin/planner/RouteOptimizerImpl.java:282-299 | the location change for a location just added takes away exactly that location |
| Changes.AddThenRemoveRestores | optaweb-vehicle-routing-backend/src/main/java/org/optaweb/vehiclerouting/plugin/planner/RouteOptimizerImpl.java:211-300 | when every visit already in the working solution is linked, adding a new location while solving and then removing it restores the working solution, apart from the used-up identity |
| Changes.QueuedAddsThenRemoveFails | optaweb-vehicle-routing-backend/src/main/java/org/optaweb/vehiclerouting/plugin/planner/RouteOptimizerImpl.java:211-281 | on linked visits, adding two locations in one batch and then removing the second throws the null dereference of the relink loop: the first new visit is still unlinked |
| Changes.SecondAddedVisitRemovalFails | optaweb-vehicle-routing-backend/src/main/java/org/optaweb/vehiclerouting/plugin/planner/RouteOptimizerImpl.java:255-278 | the visit change for the second of two just-added locations finds it, and the relink scan then reaches the first new visit's missing predecessor and throws |
| Changes.RelinkReachesUnlinked | optaweb-vehicle-routing-backend/src/main/java/org/optaweb/vehiclerouting/plugin/planner/RouteOptimizerImpl.java:271-278 | when the linked visits before it all point elsewhere than the removed identity, the relink scan reaches an unlinked visit and throws |
| Changes.ApplyAllThirdFails | optaweb-vehicle-routing-backend/src/main/java/org/optaweb/vehiclerouting/plugin/planner/RouteOptimizerImpl.java:254-300 | a batch whose first two changes pass fails with the error of its third |
| Optimizer.Initial | optaweb-vehicle-routing-backend/src/main/java/org/optaweb/vehiclerouting/plugin/planner/RouteOptimizerImpl.java:62-72 | after construction the solver is idle, the solution empty and nothing queued or published; the state invariant holds |
| Optimizer.AssertSolverIsAlive | optaweb-vehicle-routing-backend/src/main/java/org/optaweb/vehiclerouting/plugin/planner/RouteOptimizerImpl.java:152-161 | passes exactly when the task has not ended; an ended task throws "solver has died" if it failed and "finished in daemon mode" otherwise |
| Optimizer.IsSolving | optaweb-vehicle-routing-backend/src/main/java/org/optaweb/vehiclerouting/plugin/planner/RouteOptimizerImpl.java:144-150 | false exactly without a handle; true exactly for a live task; throws exactly for an ended task |
| Optimizer.StartSolver | optaweb-vehicle-routing-backend/src/main/java/org/optaweb/vehiclerouting/plugin/planner/RouteOptimizerImpl.java:133-142 | passes exactly without a handle, and then the solver is solving; a second start throws and changes nothing |
| Optimizer.StopSolver | optaweb-vehicle-routing-backend/src/main/java/org/optaweb/vehiclerouting/plugin/planner/RouteOptimizerImpl.java:163-175 | idle: no-op; a failed task: throws and keeps the handle; otherwise the handle is dropped, so the solver is idle and a later start passes; the solution and published routes are untouched; keeps every part of the invariant except "idle only with no visits", which its callers restore |
| Optimizer.Publish | optaweb-vehicle-routing-backend/src/main/java/org/optaweb/vehiclerouting/plugin/planner/RouteOptimizerImpl.java:122-131 | the extracted route is appended to the log when there is one; nothing else changes |
| Optimizer.AddLocation | optaweb-vehicle-routing-backend/src/main/java/org/optaweb/vehiclerouting/plugin/planner/RouteOptimizerImpl.java:187-230 | an ended task throws the liveness check's error and nothing changes. While idle the location is always appended. The 1st becomes the domicile and, from a valid state, exactly the one-location route [loc] is published; nothing else changes. The 2nd gets a fresh unlinked visit, from a valid state the only one, and starts the solver; the domicile and the log stay. A 3rd or later only appends. While solving exactly the add change is queued. Keeps the invariant |
| Optimizer.RemoveLocation | optaweb-vehicle-routing-backend/src/main/java/org/optaweb/vehiclerouting/plugin/planner/RouteOptimizerImpl.java:232-303 | an ended task throws the liveness check's error and nothing changes. Idle: passes exactly with one location, which goes (whatever its id) together with the domicile, and, from a valid state, exactly the empty route [] is published; otherwise it throws with the count. Solving: a missing domicile is dereferenced and throws; the domicile's id throws and nothing changes; with one visit left it takes the `RemoveLastVisit` step; otherwise exactly the two-change batch is queued. Keeps the invariant |
| Optimizer.RemoveLastVisit | optaweb-vehicle-routing-backend/src/main/java/org/optaweb/vehiclerouting/plugin/planner/RouteOptimizerImpl.java:247-252 | if stopping fails, that failure; otherwise the solver is idle, the visit list is empty, only locations with other ids remain, and the route without visits is published |
| Optimizer.Clear | optaweb-vehicle-routing-backend/src/main/java/org/optaweb/vehiclerouting/plugin/planner/RouteOptimizerImpl.java:305-310 | fails exactly when stopping fails, with the stop's result; otherwise the solver is idle, the solution is the empty one, and the empty route is published; from a valid state this is the initial state plus the log |
| Optimizer.BestSolutionChanged | optaweb-vehicle-routing-backend/src/main/java/org/optaweb/vehiclerouting/plugin/planner/RouteOptimizerImpl.java:177-185 | the event arrives only while the task runs, and reports every change processed only once none is queued; with a change not yet processed nothing changes; otherwise the best solution is adopted and its route published; keeps the invariant |
| Optimizer.ProcessChanges | optaweb-vehicle-routing-backend/src/main/java/org/optaweb/vehiclerouting/plugin/planner/RouteOptimizerImpl.java:254-300 | the solver drains the queue onto its working solution; the task stays alive exactly when every change passes, and dies otherwise; the optimizer's solution and log are untouched; identities stay distinct |
| Optimizer.TaskEnds | optaweb-vehicle-routing-backend/src/main/java/org/optaweb/vehiclerouting/plugin/planner/RouteOptimizerImpl.java:139-141 | once the task ends by itself, the next liveness check throws, with "solver has died" exactly when it failed |
| Optimizer.FirstTwoLocations | optaweb-vehicle-routing-backend/src/main/java/org/optaweb/vehiclerouting/plugin/planner/RouteOptimizerImpl.java:194-209 | from the start, the 1st location becomes the domicile with route [a] published; the 2nd gets an unlinked visit and the solver runs; the state is exactly `TwoLocations(a, b)` |
| Optimizer.RemovingLastVisit | optaweb-vehicle-routing-backend/src/main/java/org/optaweb/vehiclerouting/plugin/planner/RouteOptimizerImpl.java:247-252 | removing the only visit's location stops the solver and publishes the domicile's route again |
| Optimizer.UnknownLastRemovalStrandsLocations | optaweb-vehicle-routing-backend/src/main/java/org/optaweb/vehiclerouting/plugin/planner/RouteOptimizerImpl.java:244-252 | after the first two adds, removing an id that is neither the domicile's nor on the map passes: the solver stops and the one visit goes, but both locations stay, and the route [a] is published again; every later removal then throws the impossible-count error for 2 locations, and an add only appends |
| Optimizer.ExampleRun | optaweb-vehicle-routing-backend/src/main/java/org/optaweb/vehiclerouting/plugin/planner/RouteOptimizerImpl.java:187-310 | add a, add b (giving `TwoLocations(a, b)`), remove b, clear: the routes published are [a], [a], [] and the solver ends idle with the empty solution |
| Optimizer.FailedTaskIsStuck | optaweb-vehicle-routing-backend/src/main/java/org/optaweb/vehiclerouting/plugin/planner/RouteOptimizerImpl.java:144-175 | after the task fails, every request, stop, clear and start throws and changes nothing |
| Optimizer.RemovalWhileSolving | optaweb-vehicle-routing-backend/src/main/java/org/optaweb/vehiclerouting/plugin/planner/RouteOptimizerImpl.java:253-301 | a removal queued while solving, once processed on a consistent working solution, passes, keeps the solver alive and the working solution consistent |
| Optimizer.UnknownRemovalKillsSolver | optaweb-vehicle-routing-backend/src/main/java/org/optaweb/vehiclerouting/plugin/planner/RouteOptimizerImpl.java:257-261 | removing, while solving, a location with no visit kills the task; from then on `isSolving` reports the dead solver and `clear` fails |
| Optimizer.QueuedAddsThenRemoveKillSolver | optaweb-vehicle-routing-backend/src/main/java/org/optaweb/vehiclerouting/plugin/planner/RouteOptimizerImpl.java:210-300 | two adds queued while solving and then the removal of the second: all three requests pass and queue four changes; once processed, the relink loop throws the null dereference and the task dies |
| Optimizer.AddWhileSolving | optaweb-vehicle-routing-backend/src/main/java/org/optaweb/vehiclerouting/plugin/planner/RouteOptimizerImpl.java:210-228 | an add queued while solving, once processed, leaves the optimizer's solution alone and the working solution with exactly the new location and an unlinked visit of it |
| Optimizer.ConsistentBestIsPublishedWhole | optaweb-vehicle-routing-backend/src/main/java/org/optaweb/vehiclerouting/plugin/planner/RouteOptimizerImpl.java:177-185 | while the solver runs with nothing queued, the route published for a consistent best solution starts at the domicile and lists every location once |
| Planner.TspSolution.constructor | optaweb-vehicle-routing-backend/src/main/java/org/optaweb/vehiclerouting/plugin/planner/RouteOptimizerImpl.java:74-80 | a new solution object holds the empty solution |
| Planner.TspSolution.AddVisit | optaweb-vehicle-routing-backend/src/main/java/org/optaweb/vehiclerouting/plugin/planner/RouteOptimizerImpl.java:211-228 | the in-place add change makes exactly the step `Changes.AddVisit` describes |
| Planner.TspSolution.RemoveVisit | optaweb-vehicle-routing-backend/src/main/java/org/optaweb/vehiclerouting/plugin/planner/RouteOptimizerImpl.java:255-281 | the find loop, the removal and the breaking relink loop make exactly the step `Changes.RemoveVisit` describes, including both failures |
| Planner.TspSolution.RemoveLocation | optaweb-vehicle-routing-backend/src/main/java/org/optaweb/vehiclerouting/plugin/planner/RouteOptimizerImpl.java:282-299 | the in-place location change makes exactly the step `Changes.RemoveLocation` describes |
| Planner.TspSolution.Apply | optaweb-vehicle-routing-backend/src/main/java/org/optaweb/vehiclerouting/plugin/planner/RouteOptimizerImpl.java:254-300 | any change applied in place agrees with `Changes.Apply` |
| Planner.ExtractRoute | optaweb-vehicle-routing-backend/src/main/java/org/optaweb/vehiclerouting/plugin/planner/RouteOptimizerImpl.java:89-113 | the two loops, the second with no bound, end and return exactly `RouteOf` |
| Planner.SuccessorMap | optaweb-vehicle-routing-backend/src/main/java/org/optaweb/vehiclerouting/plugin/planner/RouteOptimizerImpl.java:90-98 | the map-filling loop returns exactly the last-writer-wins successor map, or nothing at an unconnected visit |
| Planner.WalkFromDomicile | optaweb-vehicle-routing-backend/src/main/java/org/optaweb/vehiclerouting/plugin/planner/RouteOptimizerImpl.java:107-112 | while successor identities are distinct, the unbounded walk meets no standstill twice, so it ends within as many steps as there are visits, with the bounded walk's route |
| Planner.RouteOptimizer.constructor | optaweb-vehicle-routing-backend/src/main/java/org/optaweb/vehiclerouting/plugin/planner/RouteOptimizerImpl.java:62-72 | a new optimizer is in the initial state |
| Planner.RouteOptimizer.IsSolving | optaweb-vehicle-routing-backend/src/main/java/org/optaweb/vehiclerouting/plugin/planner/RouteOptimizerImpl.java:144-150 | answers as `Optimizer.IsSolving` of the current state |
| Planner.RouteOptimizer.AssertSolverIsAlive | optaweb-vehicle-routing-backend/src/main/java/org/optaweb/vehiclerouting/plugin/planner/RouteOptimizerImpl.java:152-161 | answers as `Optimizer.AssertSolverIsAlive` |
| Planner.RouteOptimizer.StartSolver | optaweb-vehicle-routing-backend/src/main/java/org/optaweb/vehiclerouting/plugin/planner/RouteOptimizerImpl.java:133-142 | makes exactly the `Optimizer.StartSolver` step and keeps the solution object |
| Planner.RouteOptimizer.StopSolver | optaweb-vehicle-routing-backend/src/main/java/org/optaweb/vehiclerouting/plugin/planner/RouteOptimizerImpl.java:163-175 | makes exactly the `Optimizer.StopSolver` step and keeps the solution object |
| Planner.RouteOptimizer.PublishRoute | optaweb-vehicle-routing-backend/src/main/java/org/optaweb/vehiclerouting/plugin/planner/RouteOptimizerImpl.java:122-131 | extracts the route with `ExtractRoute` and changes only the log, as `Optimizer.Publish` does |
| Planner.RouteOptimizer.BestSolutionChanged | optaweb-vehicle-routing-backend/src/main/java/org/optaweb/vehiclerouting/plugin/planner/RouteOptimizerImpl.java:177-185 | makes exactly the `Optimizer.BestSolutionChanged` step |
| Planner.RouteOptimizer.AddLocation | optaweb-vehicle-routing-backend/src/main/java/org/optaweb/vehiclerouting/plugin/planner/RouteOptimizerImpl.java:187-230 | editing the solution object in place makes exactly the `Optimizer.AddLocation` step and keeps the invariant |
| Planner.RouteOptimizer.RemoveLocation | optaweb-vehicle-routing-backend/src/main/java/org/optaweb/vehiclerouting/plugin/planner/RouteOptimizerImpl.java:232-303 | editing the solution object in place makes exactly the `Optimizer.RemoveLocation` step and keeps the invariant |
| Planner.RouteOptimizer.Clear | optaweb-vehicle-routing-backend/src/main/java/org/optaweb/vehiclerouting/plugin/planner/RouteOptimizerImpl.java:305-310 | makes exactly the `Optimizer.Clear` step with a fresh empty solution object |
| Planner.RouteOptimizer.ProcessProblemFactChanges | optaweb-vehicle-routing-backend/src/main/java/org/optaweb/vehiclerouting/plugin/planner/RouteOptimizerImpl.java:254-300 | the solver's loop over the queue, stopping at the first change that throws, makes exactly the `Optimizer.ProcessChanges` step on the working solution object |
| Planner.RouteOptimizer.TaskEnds | optaweb-vehicle-routing-backend/src/main/java/org/optaweb/vehiclerouting/plugin/planner/RouteOptimizerImpl.java:139-141 | makes exactly the `Optimizer.TaskEnds` step |

## Left out

- The thread pool and the `Future`. Only the handle (`started`) and the
  task's state (`taskDone`, `taskFailed`) are modelled. The task's state
  changes only through the environment steps `TaskEnds` and
  `ProcessProblemFactChanges`, so concurrency and races are not modelled.
- The OptaPlanner search (`solver.solve`, `terminateEarly`). A best solution
  arrives as a parameter of `BestSolutionChanged`, and the solver's working
  solution is a separate object handed to the environment step.
- The `ScoreDirector` before/after notifications and
  `triggerVariableListeners` are foreign bookkeeping with no effect in the
  model.
- `coreToPlanner` (lines 82-87), `addLocationToRoute` (lines 115-120), the
  distance map (line 191) and `getDistanceString` (line 128) are left out.
  They involve latitude/longitude doubles, travel distances and number
  formatting. Locations are identified by their id alone, and a route is a
  list of ids.
- Logging and the Spring event publisher. The publisher is replaced by the
  ghost log `published` of routes.
- `InterruptedException` is not told apart from `ExecutionException`. Both
  are modelled as the task failing.
- The two "this is impossible" / "this is a bug" throws (lines 266 and 294)
  cannot happen in the model. They would need the list to lack an element the
  model has just found in it, so they are not modelled as error paths.
- `lookUpWorkingObject` (line 285) is modelled as looking up the first
  location with the id in the working solution.
- Visits are values picked out by their `key`, not shared objects. Aliasing
  between the optimizer's solution and the solver's working copy is not
  modelled: `ProcessProblemFactChanges` requires the two objects to differ.
- Extraction.RouteOf bounds its walk by the number of visits. The method
  `Planner.ExtractRoute` proves that the source's unbounded walk always ends
  within that bound.
- Optimizer.StopSolver, when the stop passes, also forgets the changes still
  queued. The source hands them to the solver object, which every start
  reuses, and nothing in the optimizer empties that queue. The model assumes
  the solver library does not carry them over into its next task. This is
  an assumption about the library, not a behaviour the source shows.
- Planner.RouteOptimizer.AddLocation, Planner.RouteOptimizer.RemoveLocation
  and Planner.RouteOptimizer.Clear require `Valid()`, the state invariant
  `Optimizer.Valid`. It has four parts. Visit identities are distinct, which
  Java object identity guarantees. A failed task has ended. Without a task
  nothing has ended and nothing is queued. Idle, there are no visits. The
  constructor establishes it and these three methods keep it. A bare
  `StopSolver` keeps all but the last part; the source stops the solver only
  on the way to removing the last visit or clearing, which restore it.
- Planner.RouteOptimizer.BestSolutionChanged and
  Planner.RouteOptimizer.PublishRoute require the solution to have distinct
  visit identities, which Java object identity guarantees.
  Planner.RouteOptimizer.BestSolutionChanged and Optimizer.BestSolutionChanged
  also require a live task, and no queued change when every change is
  reported processed. The listener registered at line 70 is called only
  from within `solver.solve`, which runs in the task (lines 139-141).
  Optimizer.BestSolutionChanged keeps the state invariant only when the new
  best solution has distinct visit identities, `WellKeyed(best)`.
