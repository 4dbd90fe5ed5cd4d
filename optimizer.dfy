/** The route optimizer as a state machine over values: the solver handle and
    its background task, the solution it hands out, the problem fact changes
    waiting for the running solver, and the log of published routes. The class
    `Planner.RouteOptimizer` is proved to make exactly these steps. */
module Optimizer {
  import opened Tsp
  import opened Extraction
  import opened Changes

  /** `started` stands for a non-null solver future. `taskDone` and
      `taskFailed` are decided by the environment: whether the background task
      has ended, and whether it ended by throwing. `pending` holds the problem
      fact changes submitted to the solver and not yet processed; `published`
      holds every route handed to the notification sink, oldest first. */
  datatype State = State(
    started: bool,
    taskDone: bool,
    taskFailed: bool,
    tsp: Solution,
    pending: seq<ProblemFactChange>,
    published: seq<seq<LocationId>>)

  /** What an operation reports, and the state it leaves. */
  datatype Step = Step(outcome: Outcome, after: State)

  /** What processing the queued changes reports, the state it leaves and the
      solver's working solution afterwards. */
  datatype Processing = Processing(outcome: Outcome, after: State, working: Solution)

  /** The state right after construction: no task, the empty solution,
      nothing queued, nothing published. */
  function Initial(): (st: State)
    ensures Valid(st)
  {
    State(false, false, false, EmptySolution(), [], [])
  }

  /** What every step keeps, a bare stop included: a task can only have
      failed once it has ended; without a task there is nothing ended and
      nothing queued; visit identities are distinct. */
  predicate Coherent(st: State) {
    && WellKeyed(st.tsp)
    && (st.taskFailed ==> st.taskDone)
    && (!st.started ==> !st.taskDone && st.pending == [])
  }

  /** What every request and event keeps: besides coherence, the optimizer
      is idle only with no visits. (The solver is stopped on its own only on
      the way to removing the last visit or clearing.) */
  predicate Valid(st: State) {
    && Coherent(st)
    && (!st.started ==> st.tsp.visits == [])
  }

  // ---------------------------------------------------------------------------
  // The solver lifecycle

  /** A started task must not have ended: it runs in daemon mode until it is
      terminated. */
  function AssertSolverIsAlive(st: State): (o: Outcome)
    requires st.started
    ensures o.Pass? <==> !st.taskDone
    ensures o.Fail? ==> o.error == (if st.taskFailed then SolverDied else SolverFinishedInDaemonMode)
  {
    if !st.taskDone then Pass
    else if st.taskFailed then Fail(SolverDied)
    else Fail(SolverFinishedInDaemonMode)
  }

  /** False exactly without a task; true for a live task; an ended task throws. */
  function IsSolving(st: State): (r: Result<bool>)
    ensures r == Ok(false) <==> !st.started
    ensures r == Ok(true) <==> st.started && !st.taskDone
    ensures r.Err? <==> st.started && st.taskDone
  {
    if !st.started then Ok(false)
    else match AssertSolverIsAlive(st)
      case Pass => Ok(true)
      case Fail(e) => Err(e)
  }

  /** A second start is refused and changes nothing; otherwise a live task is
      submitted and nothing else changes. */
  function StartSolver(st: State): (r: Step)
    ensures r.outcome.Pass? <==> !st.started
    ensures r.outcome.Fail? ==> r == Step(Fail(SolverAlreadyStarted), st)
    ensures r.outcome.Pass? ==>
      IsSolving(r.after) == Ok(true) && r.after == st.(started := true, taskDone := false, taskFailed := false)
  {
    if st.started then Step(Fail(SolverAlreadyStarted), st)
    else Step(Pass, st.(started := true, taskDone := false, taskFailed := false))
  }

  /** Stopping without a task does nothing. Otherwise the task is terminated
      and waited for: if it failed, the stop throws and the handle is kept;
      if not, the handle is dropped (so a later start succeeds). The changes
      the task never processed are dropped too: this model assumes the
      solver library does not carry them over into its next task. The
      solution and the published routes are never touched. */
  function StopSolver(st: State): (r: Step)
    ensures r.outcome.Pass? <==> !(st.started && st.taskFailed)
    ensures r.outcome.Fail? ==> r.outcome.error == StopFailed && r.after == st.(taskDone := true)
    ensures r.outcome.Pass? ==> IsSolving(r.after) == Ok(false) && StartSolver(r.after).outcome.Pass?
    ensures !st.started ==> r == Step(Pass, st)
    ensures r.after.tsp == st.tsp && r.after.published == st.published
    ensures Coherent(st) ==> Coherent(r.after)
  {
    if !st.started then Step(Pass, st)
    else if st.taskFailed then Step(Fail(StopFailed), st.(taskDone := true))
    else Step(Pass, st.(started := false, taskDone := false, taskFailed := false, pending := []))
  }

  /** Publishing extracts the route of `s` and logs it if there is one. */
  function Publish(st: State, s: Solution): (r: State)
    ensures r == st.(published := r.published)
    ensures RouteOf(s.domicile, s.visits).Some? ==> r.published == st.published + [RouteOf(s.domicile, s.visits).value]
    ensures RouteOf(s.domicile, s.visits).None? ==> r.published == st.published
  {
    st.(published := st.published + Published(RouteOf(s.domicile, s.visits)))
  }

  // ---------------------------------------------------------------------------
  // Requests from the caller

  /** `addLocation`. While idle the location is appended; the first becomes
      the domicile and its one-location route is published, the second gets a
      visit and starts the solver, any later one is only appended. While
      solving the add is queued for the solver. An ended task throws and
      nothing changes. */
  function AddLocation(st: State, loc: LocationId): (r: Step)
    ensures r.outcome.Fail? <==> st.started && st.taskDone
    ensures st.started && st.taskDone ==> r == Step(Fail(AssertSolverIsAlive(st).error), st)
    ensures !st.started ==>
      && r.after.tsp.locations == st.tsp.locations + [loc]
      && r.after.pending == st.pending
      && (r.after.started <==> |st.tsp.locations| == 1)
      && (|st.tsp.locations| == 0 ==>
            && r.after == st.(tsp := st.tsp.(locations := [loc], domicile := Some(loc)), published := r.after.published)
            && r.after.published == st.published + Published(RouteOf(Some(loc), st.tsp.visits)))
      && (|st.tsp.locations| == 1 ==>
            && r.after == st.(started := true, taskDone := false, taskFailed := false,
                              tsp := st.tsp.(locations := st.tsp.locations + [loc],
                                             visits := st.tsp.visits + [Visit(st.tsp.nextKey, loc, None)],
                                             nextKey := st.tsp.nextKey + 1))
            && IsSolving(r.after) == Ok(true))
      && (|st.tsp.locations| >= 2 ==> r.after == st.(tsp := st.tsp.(locations := st.tsp.locations + [loc])))
    ensures Valid(st) && !st.started && |st.tsp.locations| == 0 ==> r.after.published == st.published + [[loc]]
    ensures Valid(st) && !st.started && |st.tsp.locations| == 1 ==>
      r.after.tsp.visits == [Visit(st.tsp.nextKey, loc, None)]
    ensures st.started && !st.taskDone ==> r == Step(Pass, st.(pending := st.pending + [AddLocationChange(loc)]))
    ensures Valid(st) ==> Valid(r.after)
  {
    match IsSolving(st)
    case Err(e) => Step(Fail(e), st)
    case Ok(solving) =>
      if solving then Step(Pass, st.(pending := st.pending + [AddLocationChange(loc)]))
      else
        var locs := st.tsp.locations + [loc];
        if |locs| == 1 then
          var t := st.tsp.(locations := locs, domicile := Some(loc));
          RouteWithoutVisits(Some(loc));
          Step(Pass, Publish(st.(tsp := t), t))
        else if |locs| == 2 then
          StartSolver(st.(tsp := AddVisit(st.tsp, loc)))
        else
          Step(Pass, st.(tsp := st.tsp.(locations := locs)))
  }

  /** `removeLocation`. While idle exactly one location must exist; it goes
      (whatever its id) with the domicile, and the empty route is published.
      While solving, a missing domicile is dereferenced, the domicile cannot
      be removed, the last visit is removed directly after stopping the
      solver, and otherwise the two-change removal batch is queued. */
  function RemoveLocation(st: State, loc: LocationId): (r: Step)
    ensures st.started && st.taskDone ==> r == Step(Fail(AssertSolverIsAlive(st).error), st)
    ensures !st.started ==>
      && (r.outcome.Pass? <==> |st.tsp.locations| == 1)
      && (r.outcome.Fail? ==> r == Step(Fail(ImpossibleLocationCount(|st.tsp.locations|)), st))
      && (r.outcome.Pass? ==>
            r.after == st.(tsp := st.tsp.(locations := [], domicile := None),
                           published := st.published + Published(RouteOf(None, st.tsp.visits))))
    ensures Valid(st) && !st.started && r.outcome.Pass? ==> r.after.published == st.published + [[]]
    ensures st.started && !st.taskDone && st.tsp.domicile.None? ==> r == Step(Fail(NullReference), st)
    ensures st.started && !st.taskDone && st.tsp.domicile == Some(loc) ==> r == Step(Fail(DomicileRemoval), st)
    ensures st.started && !st.taskDone && st.tsp.domicile.Some? && st.tsp.domicile.value != loc && |st.tsp.visits| == 1 ==>
      r == RemoveLastVisit(st, loc)
    ensures st.started && !st.taskDone && st.tsp.domicile.Some? && st.tsp.domicile.value != loc && |st.tsp.visits| != 1 ==>
      r == Step(Pass, st.(pending := st.pending + [RemoveVisitChange(loc), RemoveLocationChange(loc)]))
    ensures Valid(st) ==> Valid(r.after)
  {
    match IsSolving(st)
    case Err(e) => Step(Fail(e), st)
    case Ok(solving) =>
      if !solving then
        if |st.tsp.locations| != 1 then Step(Fail(ImpossibleLocationCount(|st.tsp.locations|)), st)
        else
          var t := st.tsp.(locations := st.tsp.locations[1..], domicile := None);
          RouteWithoutVisits(None);
          Step(Pass, Publish(st.(tsp := t), t))
      else if st.tsp.domicile.None? then Step(Fail(NullReference), st)
      else if st.tsp.domicile.value == loc then Step(Fail(DomicileRemoval), st)
      else if |st.tsp.visits| == 1 then RemoveLastVisit(st, loc)
      else Step(Pass, st.(pending := st.pending + [RemoveVisitChange(loc), RemoveLocationChange(loc)]))
  }

  /** The branch of `removeLocation` for a running solver with one visit left:
      stop the solver, drop the first visit whatever its location, drop every
      location with the id, publish. */
  function RemoveLastVisit(st: State, loc: LocationId): (r: Step)
    requires |st.tsp.visits| == 1
    ensures r.outcome.Fail? ==> r == StopSolver(st)
    ensures r.outcome.Pass? ==>
      && IsSolving(r.after) == Ok(false)
      && r.after.tsp == st.tsp.(visits := [], locations := WithoutLocation(st.tsp.locations, loc))
      && loc !in r.after.tsp.locations
      && r.after.published == st.published + Published(RouteOf(st.tsp.domicile, []))
    ensures Valid(st) ==> Valid(r.after)
  {
    var stop := StopSolver(st);
    if stop.outcome.Fail? then stop
    else
      var t := stop.after.tsp.(visits := stop.after.tsp.visits[1..],
                               locations := WithoutLocation(stop.after.tsp.locations, loc));
      Step(Pass, Publish(stop.after.(tsp := t), t))
  }

  /** `clear`. Stop the solver (which throws if its task failed), then start
      over from the empty solution and publish the empty route. */
  function Clear(st: State): (r: Step)
    ensures r.outcome.Pass? <==> !(st.started && st.taskFailed)
    ensures r.outcome.Fail? ==> r == StopSolver(st)
    ensures r.outcome.Pass? ==>
      && IsSolving(r.after) == Ok(false) && r.after.tsp == EmptySolution()
      && r.after.published == st.published + [[]]
    ensures Valid(st) && r.outcome.Pass? ==> r.after == Initial().(published := st.published + [[]])
  {
    var stop := StopSolver(st);
    if stop.outcome.Fail? then stop
    else Step(Pass, Publish(stop.after.(tsp := EmptySolution()), EmptySolution()))
  }

  // ---------------------------------------------------------------------------
  // Events from the solver

  /** A new best solution replaces the optimizer's and its route is published,
      unless some queued change is not yet reflected in it: then nothing
      changes. The solver raises this event only from inside its running
      task, and it reports every change processed only once none is queued. */
  function BestSolutionChanged(st: State, best: Solution, everyProcessed: bool): (r: State)
    requires st.started && !st.taskDone
    requires everyProcessed ==> st.pending == []
    ensures !everyProcessed ==> r == st
    ensures everyProcessed ==> r.tsp == best && r == Publish(st, best).(tsp := best)
    ensures Valid(st) && WellKeyed(best) ==> Valid(r)
  {
    if !everyProcessed then st
    else Publish(st.(tsp := best), best)
  }

  /** The running solver takes every queued change, in submission order, and
      applies it to its working solution. If one throws, the rest of the batch
      is skipped and the task ends by that exception. The optimizer's own
      solution is untouched: it hears of the changes only through a later
      best solution. */
  function ProcessChanges(st: State, working: Solution): (r: Processing)
    requires st.started && !st.taskDone
    ensures r.after.pending == [] && r.after.tsp == st.tsp && r.after.published == st.published
    ensures r.outcome.Pass? <==> IsSolving(r.after) == Ok(true)
    ensures r.outcome.Fail? ==> IsSolving(r.after) == Err(SolverDied)
    ensures Valid(st) ==> Valid(r.after)
    ensures WellKeyed(working) ==> WellKeyed(r.working)
  {
    var applied := ApplyAll(working, st.pending);
    assert WellKeyed(working) ==> WellKeyed(applied.after) by {
      if WellKeyed(working) { ApplyAllKeepsWellKeyed(working, st.pending); }
    }
    var failed := applied.outcome.Fail?;
    Processing(applied.outcome, st.(pending := [], taskDone := failed, taskFailed := failed), applied.after)
  }

  /** The background task ends by itself (normally, or by throwing). */
  function TaskEnds(st: State, failed: bool): (r: State)
    requires st.started && !st.taskDone
    ensures IsSolving(r).Err? && (IsSolving(r) == Err(SolverDied) <==> failed)
    ensures r.started && r.tsp == st.tsp && r.pending == st.pending && r.published == st.published
    ensures Valid(st) ==> Valid(r)
  {
    st.(taskDone := true, taskFailed := failed)
  }

  // ---------------------------------------------------------------------------
  // Properties of runs

  /** From the initial state: the first location becomes the domicile and its
      one-location route is published; the second gets an unlinked visit and
      starts the solver. */
  lemma {:induction false} FirstTwoLocations(a: LocationId, b: LocationId)
    ensures var s1 := AddLocation(Initial(), a);
      && s1.outcome.Pass? && IsSolving(s1.after) == Ok(false)
      && s1.after.tsp.domicile == Some(a) && s1.after.tsp.locations == [a] && s1.after.tsp.visits == []
      && s1.after.published == [[a]]
    ensures var s2 := AddLocation(AddLocation(Initial(), a).after, b);
      && s2.outcome.Pass? && IsSolving(s2.after) == Ok(true)
      && s2.after.tsp.domicile == Some(a) && s2.after.tsp.locations == [a, b]
      && s2.after.tsp.visits == [Visit(0, b, None)]
      && s2.after.published == [[a]] && Valid(s2.after)
    ensures AddLocation(AddLocation(Initial(), a).after, b).after == TwoLocations(a, b)
  {
    var s1 := AddLocation(Initial(), a);
    RouteWithoutVisits(Some(a));
    assert s1.after.tsp.locations == [] + [a];
  }

  /** The state the first two adds leave: a running solver for the domicile
      `a` and one unlinked visit of `b`. */
  function TwoLocations(a: LocationId, b: LocationId): State {
    State(true, false, false, Solution([a, b], [Visit(0, b, None)], Some(a), 0, 1), [], [[a]])
  }

  /** Removing the last visit's location while the solver runs, with only
      the domicile's location besides: the solver stops, the domicile's
      one-location route is published again, and `isSolving` turns false. */
  lemma RemovingLastVisit(st: State, d: LocationId, v: Visit)
    requires Valid(st) && IsSolving(st) == Ok(true)
    requires st.tsp.domicile == Some(d) && d != v.location
    requires st.tsp.locations == [d, v.location] && st.tsp.visits == [v]
    ensures var r := RemoveLocation(st, v.location);
      && r.outcome.Pass? && IsSolving(r.after) == Ok(false)
      && r.after.tsp.locations == [d] && r.after.tsp.visits == [] && r.after.tsp.domicile == Some(d)
      && r.after.published == st.published + [[d]]
  {
    assert WithoutLocation([d, v.location], v.location) == [d] by {
      assert [d, v.location][1..] == [v.location];
    }
    RouteWithoutVisits(Some(d));
  }

  /** The run of the example scenario: add A (route [A]), add B (the solver
      starts; `FirstTwoLocations` shows these two adds give `TwoLocations`),
      remove B (the solver stops, route [A] again), clear (the empty route,
      the solver idle). */
  lemma ExampleRun(a: LocationId, b: LocationId)
    requires a != b
    ensures var s3 := RemoveLocation(TwoLocations(a, b), b);
      var s4 := Clear(s3.after);
      && s3.outcome.Pass? && IsSolving(s3.after) == Ok(false)
      && s3.after.tsp.locations == [a] && s3.after.tsp.visits == []
      && s4.outcome.Pass? && IsSolving(s4.after) == Ok(false)
      && s4.after.tsp == EmptySolution()
      && s4.after.published == [[a], [a], []]
  {
    var s2 := TwoLocations(a, b);
    var s3 := State(false, false, false, Solution([a], [], Some(a), 0, 1), [], [[a], [a]]);
    assert RemoveLocation(s2, b) == Step(Pass, s3) by {
      RemovingLastVisit(s2, a, Visit(0, b, None));
    }
    assert Clear(s3) == Step(Pass, Initial().(published := [[a], [a], []]));
  }

  /** After the first two adds, removing an id that is neither the
      domicile's nor on the map: the solver stops and the one visit goes
      anyway, but both locations stay. The optimizer is then idle with two
      locations, which the source calls impossible: every later removal
      throws, and an add only appends without restarting the solver. */
  lemma UnknownLastRemovalStrandsLocations(a: LocationId, b: LocationId, c: LocationId, x: LocationId)
    requires a != b && c != a && c != b
    ensures var s3 := RemoveLocation(TwoLocations(a, b), c);
      && s3.outcome.Pass? && IsSolving(s3.after) == Ok(false)
      && s3.after.tsp.locations == [a, b] && s3.after.tsp.visits == []
      && s3.after.published == [[a], [a]]
      && RemoveLocation(s3.after, x) == Step(Fail(ImpossibleLocationCount(2)), s3.after)
      && AddLocation(s3.after, x) == Step(Pass, s3.after.(tsp := s3.after.tsp.(locations := [a, b, x])))
  {
    var s2 := TwoLocations(a, b);
    var idle := State(false, false, false, Solution([a, b], [], Some(a), 0, 1), [], [[a], [a]]);
    assert RemoveLocation(s2, c) == Step(Pass, idle) by {
      assert WithoutLocation([a, b], c) == [a, b] by {
        assert [a, b][1..] == [b] && [b][1..] == [];
        assert WithoutLocation([b], c) == [b];
      }
      RouteWithoutVisits(Some(a));
    }
    assert [a, b] + [x] == [a, b, x];
  }

  /** Once the task has failed, every request throws and changes nothing, and
      no stop or clear can ever bring the optimizer back. */
  lemma FailedTaskIsStuck(st: State, loc: LocationId)
    requires st.started && st.taskDone && st.taskFailed
    ensures IsSolving(st) == Err(SolverDied)
    ensures AddLocation(st, loc) == Step(Fail(SolverDied), st)
    ensures RemoveLocation(st, loc) == Step(Fail(SolverDied), st)
    ensures StopSolver(st) == Step(Fail(StopFailed), st)
    ensures Clear(st) == Step(Fail(StopFailed), st)
    ensures StartSolver(st) == Step(Fail(SolverAlreadyStarted), st)
  {
  }

  /** Removing a location that has a visit, while the solver runs with no
      other change queued, on a consistent working solution: the batch goes
      through, the solver stays alive, and the working solution stays
      consistent with that location and one visit fewer. */
  lemma RemovalWhileSolving(st: State, loc: LocationId, working: Solution)
    requires IsSolving(st) == Ok(true) && st.pending == []
    requires st.tsp.domicile.Some? && st.tsp.domicile.value != loc && |st.tsp.visits| != 1
    requires Consistent(working)
    requires exists i :: 0 <= i < |working.visits| && working.visits[i].location == loc
    ensures var r := RemoveLocation(st, loc);
      var p := ProcessChanges(r.after, working);
      && r.outcome.Pass?
      && p.outcome.Pass? && IsSolving(p.after) == Ok(true)
      && Consistent(p.working)
      && multiset(p.working.locations) == multiset(working.locations) - multiset{loc}
      && |p.working.visits| == |working.visits| - 1
      && p.working.domicile == working.domicile
  {
    var cs := [RemoveVisitChange(loc), RemoveLocationChange(loc)];
    var r := RemoveLocation(st, loc);
    assert r == Step(Pass, st.(pending := cs));
    RemovalBatchKeepsConsistent(working, loc);
    var p := ProcessChanges(r.after, working);
    assert p.working == ApplyAll(working, cs).after && p.outcome == ApplyAll(working, cs).outcome;
  }

  /** Removing, while the solver runs, a location the working solution has no
      visit of: the visit-removal change throws, so the task dies; from then
      on `isSolving` reports the dead solver and `clear` cannot stop it. */
  lemma UnknownRemovalKillsSolver(st: State, loc: LocationId, working: Solution)
    requires IsSolving(st) == Ok(true) && st.pending == []
    requires st.tsp.domicile.Some? && st.tsp.domicile.value != loc && |st.tsp.visits| != 1
    requires forall i :: 0 <= i < |working.visits| ==> working.visits[i].location != loc
    ensures var r := RemoveLocation(st, loc);
      var p := ProcessChanges(r.after, working);
      && r.outcome.Pass?
      && p.outcome == Fail(VisitNotFound) && p.working == working
      && IsSolving(p.after) == Err(SolverDied)
      && Clear(p.after).outcome == Fail(StopFailed)
  {
    var cs := [RemoveVisitChange(loc), RemoveLocationChange(loc)];
    RemoveVisitEffect(working, loc);
    assert ApplyAll(working, cs) == RemoveVisit(working, loc);
  }

  /** Two locations added while the solver runs, before it processes either,
      and then the second removed: the removal batch meets the first new
      visit still unlinked, the relink loop throws, and the task dies. */
  lemma QueuedAddsThenRemoveKillSolver(st: State, x: LocationId, y: LocationId, working: Solution)
    requires IsSolving(st) == Ok(true) && st.pending == []
    requires st.tsp.domicile.Some? && st.tsp.domicile.value != y && |st.tsp.visits| != 1
    requires WellKeyed(working) && AllConnected(working.visits) && x != y
    requires forall i :: 0 <= i < |working.visits| ==> working.visits[i].location != y
    ensures var r1 := AddLocation(st, x);
      var r2 := AddLocation(r1.after, y);
      var r3 := RemoveLocation(r2.after, y);
      var p := ProcessChanges(r3.after, working);
      && r1.outcome.Pass? && r2.outcome.Pass? && r3.outcome.Pass?
      && r3.after.pending == [AddLocationChange(x), AddLocationChange(y), RemoveVisitChange(y), RemoveLocationChange(y)]
      && p.outcome == Fail(NullReference)
      && IsSolving(p.after) == Err(SolverDied)
  {
    var cs := [AddLocationChange(x), AddLocationChange(y), RemoveVisitChange(y), RemoveLocationChange(y)];
    var q := st.(pending := cs);
    assert RemoveLocation(AddLocation(AddLocation(st, x).after, y).after, y) == Step(Pass, q) by {
      assert [AddLocationChange(x)] + [AddLocationChange(y)] + [RemoveVisitChange(y), RemoveLocationChange(y)] == cs;
    }
    QueuedAddsThenRemoveFails(working, x, y);
  }

  /** Adding a location while the solver runs with no other change queued:
      once processed, the working solution has exactly the new location and
      a new unlinked visit of it more, and no route can be extracted from it
      until the solver links that visit. */
  lemma AddWhileSolving(st: State, loc: LocationId, working: Solution)
    requires IsSolving(st) == Ok(true) && st.pending == []
    ensures var r := AddLocation(st, loc);
      var p := ProcessChanges(r.after, working);
      && r.outcome.Pass? && r.after.tsp == st.tsp
      && p.outcome.Pass? && IsSolving(p.after) == Ok(true)
      && p.working == AddVisit(working, loc)
      && RouteOf(p.working.domicile, p.working.visits).None?
  {
    var cs := [AddLocationChange(loc)];
    var r := AddLocation(st, loc);
    assert r == Step(Pass, st.(pending := cs));
    ApplyAllStep(working, cs, ChangeResult(Pass, AddVisit(working, loc)));
    assert cs[1..] == [];
    AddVisitEffect(working, loc);
  }

  /** A best solution whose visits form one chain from the domicile and whose
      locations are the domicile's and the visits' is adopted, and the route
      published for it starts at the domicile and lists every location of the
      solution exactly once. */
  lemma ConsistentBestIsPublishedWhole(st: State, best: Solution)
    requires IsSolving(st) == Ok(true) && st.pending == []
    requires Consistent(best)
    ensures var r := BestSolutionChanged(st, best, true);
      && r.tsp == best
      && |r.published| == |st.published| + 1
      && r.published[..|st.published|] == st.published
      && var route := r.published[|st.published|];
         && route[0] == best.domicile.value
         && |route| == |best.visits| + 1
         && multiset(route) == multiset(best.locations)
  {
    var order :| ChainOf(best.visits, order);
    ChainRouteCoversVisits(best.domicile.value, best.visits, order);
  }
}
