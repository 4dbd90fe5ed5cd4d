/** The route optimizer and the solution it edits, as the objects the source
    updates in place. Every method is proved to take exactly the step its
    value-level specification in `Changes` or `Optimizer` describes. */
module Planner {
  import opened Tsp
  import opened Extraction
  import Changes
  import Optimizer

  /** The solution object: its location and visit lists are edited in place.
      Visits are values here; repointing a visit replaces it in the list. */
  class TspSolution {
    var locationList: seq<LocationId>
    var visitList: seq<Visit>
    var domicile: Option<LocationId>
    var score: int
    var nextKey: nat

    ghost function Value(): Solution
      reads this
    {
      Solution(locationList, visitList, domicile, score, nextKey)
    }

    ghost predicate Valid()
      reads this
    {
      WellKeyed(Value())
    }

    /** `emptySolution`: empty lists, no domicile, score zero. */
    constructor ()
      ensures Value() == EmptySolution() && Valid()
    {
      locationList := [];
      visitList := [];
      domicile := None;
      score := 0;
      nextKey := 0;
    }

    /** The problem fact change submitted by `addLocation` while solving. */
    method AddVisit(loc: LocationId)
      modifies this
      ensures Value() == Changes.AddVisit(old(Value()), loc)
    {
      locationList := locationList + [loc];
      visitList := visitList + [Visit(nextKey, loc, None)];
      nextKey := nextKey + 1;
    }

    /** The first problem fact change submitted by `removeLocation`: find the
        first visit of the location (or throw), remove it, then repoint the
        first visit that followed it and stop. */
    method RemoveVisit(loc: LocationId) returns (o: Outcome)
      modifies this
      ensures Changes.ChangeResult(o, Value()) == Changes.RemoveVisit(old(Value()), loc)
    {
      var j := 0;
      while j < |visitList| && visitList[j].location != loc
        invariant j <= |visitList|
        invariant forall i :: 0 <= i < j ==> visitList[i].location != loc
      {
        j := j + 1;
      }
      if j == |visitList| {
        return Fail(VisitNotFound);
      }
      assert IndexOfVisitAt(visitList, loc) == Some(j);
      var visit := visitList[j];
      visitList := RemoveAt(visitList, j);
      ghost var rest := visitList;
      ghost var relinked := false;
      var i := 0;
      while i < |visitList|
        invariant i <= |visitList| && visitList == rest
        invariant forall m :: 0 <= m < i ==> visitList[m].previous.Some? && visitList[m].previous != Some(VisitRef(visit.key))
      {
        var nextVisit := visitList[i];
        if nextVisit.previous.None? {
          // the null previous standstill is dereferenced
          Changes.RelinkFails(rest, visit.key, visit.previous);
          return Fail(NullReference);
        }
        if nextVisit.previous == Some(VisitRef(visit.key)) {
          Changes.RelinkFirst(rest, visit.key, visit.previous, i);
          visitList := visitList[i := nextVisit.(previous := visit.previous)];
          relinked := true;
          break;
        }
        i := i + 1;
      }
      if !relinked {
        Changes.RelinkNoSuccessor(rest, visit.key, visit.previous);
      }
      return Pass;
    }

    /** The second problem fact change submitted by `removeLocation`: look up
        the working copy of the location by id (or throw) and remove it. */
    method RemoveLocation(loc: LocationId) returns (o: Outcome)
      modifies this
      ensures Changes.ChangeResult(o, Value()) == Changes.RemoveLocation(old(Value()), loc)
    {
      var workingLocation := IndexOfLocation(locationList, loc);
      if workingLocation.None? {
        return Fail(WorkingCopyNotFound);
      }
      locationList := RemoveAt(locationList, workingLocation.value);
      return Pass;
    }

    method Apply(c: Changes.ProblemFactChange) returns (o: Outcome)
      modifies this
      ensures Changes.ChangeResult(o, Value()) == Changes.Apply(old(Value()), c)
    {
      match c
      case AddLocationChange(loc) =>
        AddVisit(loc);
        o := Pass;
      case RemoveVisitChange(loc) =>
        o := RemoveVisit(loc);
      case RemoveLocationChange(loc) =>
        o := RemoveLocation(loc);
    }
  }

  /** `extractRoute`: put every visit in a successor map under its previous
      standstill (giving up at the first visit without one), then walk the
      map from the domicile until a standstill has no successor. */
  method ExtractRoute(tsp: TspSolution) returns (route: Option<seq<LocationId>>)
    requires tsp.Valid()
    ensures route == RouteOf(tsp.domicile, tsp.visitList)
  {
    var vs := tsp.visitList;
    var next := SuccessorMap(vs);
    if next.None? {
      return None;
    }
    if tsp.domicile.None? {
      return Some([]);
    }
    NextVisitMapLinks(vs, map[], vs);
    NextVisitMapSize(vs, map[]);
    SuccessorsOfDistinctVisits(vs, next.value);
    var r := WalkFromDomicile(vs, next.value, tsp.domicile.value);
    return Some(r);
  }

  /** The first loop of `extractRoute`: a later visit with the same previous
      standstill overwrites an earlier one; a visit without one ends it. */
  method SuccessorMap(vs: seq<Visit>) returns (next: Option<map<Standstill, Visit>>)
    ensures next == NextVisitMap(vs, map[])
  {
    var m: map<Standstill, Visit> := map[];
    var i := 0;
    while i < |vs|
      invariant i <= |vs|
      invariant NextVisitMap(vs, map[]) == NextVisitMap(vs[i..], m)
    {
      var visit := vs[i];
      assert vs[i..][1..] == vs[i + 1..];
      if visit.previous.Some? {
        m := m[visit.previous.value := visit];
      } else {
        return None;
      }
      i := i + 1;
    }
    assert vs[i..] == [];
    return Some(m);
  }

  /** The second loop of `extractRoute`, which has no bound of its own: it
      follows successors from the domicile until one is missing. Because the
      map sends each standstill to a visit pointing back at it, and visit
      identities are distinct, no standstill is met twice, so the walk ends
      within as many steps as there are visits. */
  method WalkFromDomicile(vs: seq<Visit>, next: map<Standstill, Visit>, d: LocationId) returns (r: seq<LocationId>)
    requires SuccessorsDistinct(next)
    requires |next.Keys| <= |vs|
    ensures r == [d] + Follow(next, DomicileRef, |vs|)
  {
    r := [d];
    ghost var whole := [d] + Follow(next, DomicileRef, |vs|);
    // `cur` is the standstill whose successor is looked up next
    var cur := DomicileRef;
    ghost var seen: set<Standstill> := {};
    ghost var fuel: nat := |vs|;
    while cur in next
      invariant Walking(next, |vs|, seen, cur, fuel, r, whole)
      decreases fuel
    {
      var visit := next[cur];
      WalkAdvance(next, |vs|, seen, cur, fuel, r, whole);
      r := r + [visit.location];
      seen := seen + {cur};
      cur := VisitRef(visit.key);
      fuel := fuel - 1;
    }
    WalkDone(next, |vs|, seen, cur, fuel, r, whole);
  }

  /** A walk with no successor left has built the whole route. */
  lemma WalkDone(next: map<Standstill, Visit>, n: nat, seen: set<Standstill>, cur: Standstill,
                 fuel: nat, r: seq<LocationId>, whole: seq<LocationId>)
    requires Walking(next, n, seen, cur, fuel, r, whole) && cur !in next
    ensures r == whole
  {
    assert r + [] == r;
  }

  /** The state of the walk: `r` so far, then what following on from `cur`
      with the bound left adds, makes the whole route; `cur` has not been met
      before; the bound left and the standstills met add up to `n`. */
  ghost predicate Walking(next: map<Standstill, Visit>, n: nat, seen: set<Standstill>, cur: Standstill,
                          fuel: nat, r: seq<LocationId>, whole: seq<LocationId>) {
    && Unmet(next, seen, cur)
    && fuel + |seen| == n
    && r + Follow(next, cur, fuel) == whole
  }

  /** One step of the walk keeps its state and uses up one unit of the bound. */
  lemma WalkAdvance(next: map<Standstill, Visit>, n: nat, seen: set<Standstill>, cur: Standstill,
                    fuel: nat, r: seq<LocationId>, whole: seq<LocationId>)
    requires |next.Keys| <= n && SuccessorsDistinct(next)
    requires Walking(next, n, seen, cur, fuel, r, whole) && cur in next
    ensures fuel > 0
    ensures Walking(next, n, seen + {cur}, VisitRef(next[cur].key), fuel - 1, r + [next[cur].location], whole)
  {
    var visit := next[cur];
    WalkStep(n, next, seen, cur, fuel);
    FreshSuccessor(next, seen, cur);
    assert r + Follow(next, cur, fuel) == (r + [visit.location]) + Follow(next, VisitRef(visit.key), fuel - 1);
  }

  /** The walk has met the standstills `seen`, all of which have successors,
      and not yet `cur`; every visit standstill met so far or next is the
      successor of one already met. */
  ghost predicate Unmet(next: map<Standstill, Visit>, seen: set<Standstill>, cur: Standstill) {
    && seen <= next.Keys && cur !in seen
    && (forall x | x in seen && x.VisitRef? :: exists p :: p in seen && x == VisitRef(next[p].key))
    && (cur.VisitRef? ==> exists p :: p in seen && cur == VisitRef(next[p].key))
  }

  /** The bookkeeping of one step of the walk: with a standstill not met
      before, some of the bound is left, and the step consumes one unit. */
  lemma WalkStep(n: nat, next: map<Standstill, Visit>, seen: set<Standstill>, cur: Standstill, fuel: nat)
    requires |next.Keys| <= n && fuel + |seen| == n
    requires cur in next && cur !in seen && seen <= next.Keys
    ensures |seen + {cur}| == |seen| + 1 && fuel > 0
    ensures Follow(next, cur, fuel) == [next[cur].location] + Follow(next, VisitRef(next[cur].key), fuel - 1)
  {
    SubsetSize(seen + {cur}, next.Keys);
  }

  /** The walk's step meets a standstill it has not met before. */
  lemma FreshSuccessor(next: map<Standstill, Visit>, seen: set<Standstill>, cur: Standstill)
    requires SuccessorsDistinct(next)
    requires cur in next && Unmet(next, seen, cur)
    ensures Unmet(next, seen + {cur}, VisitRef(next[cur].key))
  {
  }

  /** Different standstills have successors of different identities. */
  predicate SuccessorsDistinct(next: map<Standstill, Visit>) {
    forall k1, k2 | k1 in next && k2 in next && next[k1].key == next[k2].key :: k1 == k2
  }

  /** A map that sends each standstill to a visit of a list with distinct
      identities pointing back at it has successors of distinct identities. */
  lemma SuccessorsOfDistinctVisits(vs: seq<Visit>, next: map<Standstill, Visit>)
    requires DistinctKeys(vs)
    requires forall k | k in next :: next[k].previous == Some(k) && next[k] in vs
    ensures SuccessorsDistinct(next)
  {
    forall k1, k2 | k1 in next && k2 in next && next[k1].key == next[k2].key ensures k1 == k2 {
      SameKeySameVisit(vs, next[k1], next[k2]);
    }
  }

  lemma SubsetSize<T>(a: set<T>, b: set<T>)
    requires a <= b
    ensures |a| <= |b|
  {
    if a != {} {
      var x :| x in a;
      SubsetSize(a - {x}, b - {x});
    }
  }

  /** Two visits of a list with distinct identities that share an identity
      are the same visit. */
  lemma SameKeySameVisit(vs: seq<Visit>, a: Visit, b: Visit)
    requires DistinctKeys(vs) && a in vs && b in vs && a.key == b.key
    ensures a == b
  {
    var i :| 0 <= i < |vs| && vs[i] == a;
    var j :| 0 <= j < |vs| && vs[j] == b;
  }

  /** The optimizer. `solverStarted` stands for a non-null solver future;
      `taskDone` and `taskFailed` are the state of the background task, which
      only the environment methods below change by themselves. */
  class RouteOptimizer {
    var solverStarted: bool
    var taskDone: bool
    var taskFailed: bool
    var tsp: TspSolution
    var pending: seq<Changes.ProblemFactChange>
    ghost var published: seq<seq<LocationId>>

    ghost function State(): Optimizer.State
      reads this, tsp
    {
      Optimizer.State(solverStarted, taskDone, taskFailed, tsp.Value(), pending, published)
    }

    ghost predicate Valid()
      reads this, tsp
    {
      Optimizer.Valid(State())
    }

    constructor ()
      ensures State() == Optimizer.Initial() && Valid()
    {
      solverStarted := false;
      taskDone := false;
      taskFailed := false;
      tsp := new TspSolution();
      pending := [];
      published := [];
    }

    method IsSolving() returns (r: Result<bool>)
      ensures r == Optimizer.IsSolving(State())
    {
      if !solverStarted {
        return Ok(false);
      }
      var alive := AssertSolverIsAlive();
      if alive.Fail? {
        return Err(alive.error);
      }
      return Ok(true);
    }

    method AssertSolverIsAlive() returns (o: Outcome)
      requires solverStarted
      ensures o == Optimizer.AssertSolverIsAlive(State())
    {
      if taskDone {
        // the task's result is fetched: its exception, or none
        if taskFailed {
          return Fail(SolverDied);
        }
        return Fail(SolverFinishedInDaemonMode);
      }
      return Pass;
    }

    method StartSolver() returns (o: Outcome)
      modifies this
      ensures Optimizer.Step(o, State()) == Optimizer.StartSolver(old(State()))
      ensures tsp == old(tsp)
    {
      if solverStarted {
        return Fail(SolverAlreadyStarted);
      }
      solverStarted, taskDone, taskFailed := true, false, false;
      return Pass;
    }

    method StopSolver() returns (o: Outcome)
      modifies this
      ensures Optimizer.Step(o, State()) == Optimizer.StopSolver(old(State()))
      ensures tsp == old(tsp)
    {
      if solverStarted {
        // terminate early, then wait for the task to end
        taskDone := true;
        if taskFailed {
          return Fail(StopFailed);
        }
        solverStarted, taskDone, pending := false, false, [];
      }
      return Pass;
    }

    method PublishRoute(solution: TspSolution)
      requires solution.Valid()
      modifies this`published
      ensures State() == Optimizer.Publish(old(State()), solution.Value())
    {
      var route := ExtractRoute(solution);
      if route.Some? {
        published := published + [route.value];
      }
    }

    method BestSolutionChanged(best: TspSolution, everyProcessed: bool)
      requires solverStarted && !taskDone && (everyProcessed ==> pending == [])
      requires best.Valid()
      modifies this
      ensures State() == Optimizer.BestSolutionChanged(old(State()), best.Value(), everyProcessed)
    {
      if !everyProcessed {
        return;
      }
      tsp := best;
      PublishRoute(tsp);
    }

    method AddLocation(loc: LocationId) returns (o: Outcome)
      requires Valid()
      modifies this, tsp
      ensures Optimizer.Step(o, State()) == Optimizer.AddLocation(old(State()), loc)
      ensures tsp == old(tsp) && Valid()
    {
      var solving := IsSolving();
      if solving.Err? {
        return Fail(solving.error);
      }
      if solving.value {
        pending := pending + [Changes.AddLocationChange(loc)];
        return Pass;
      }
      tsp.locationList := tsp.locationList + [loc];
      if |tsp.locationList| == 1 {
        tsp.domicile := Some(loc);
        PublishRoute(tsp);
      } else if |tsp.locationList| == 2 {
        tsp.visitList := tsp.visitList + [Visit(tsp.nextKey, loc, None)];
        tsp.nextKey := tsp.nextKey + 1;
        o := StartSolver();
        return;
      }
      return Pass;
    }

    method RemoveLocation(loc: LocationId) returns (o: Outcome)
      requires Valid()
      modifies this, tsp
      ensures Optimizer.Step(o, State()) == Optimizer.RemoveLocation(old(State()), loc)
      ensures tsp == old(tsp) && Valid()
    {
      var solving := IsSolving();
      if solving.Err? {
        return Fail(solving.error);
      }
      if !solving.value {
        if |tsp.locationList| != 1 {
          return Fail(ImpossibleLocationCount(|tsp.locationList|));
        }
        tsp.locationList := tsp.locationList[1..];
        tsp.domicile := None;
        PublishRoute(tsp);
        return Pass;
      }
      if tsp.domicile.None? {
        return Fail(NullReference);
      }
      if tsp.domicile.value == loc {
        return Fail(DomicileRemoval);
      }
      if |tsp.visitList| == 1 {
        o := StopSolver();
        if o.Fail? {
          return;
        }
        tsp.visitList := tsp.visitList[1..];
        tsp.locationList := WithoutLocation(tsp.locationList, loc);
        PublishRoute(tsp);
        return Pass;
      }
      pending := pending + [Changes.RemoveVisitChange(loc), Changes.RemoveLocationChange(loc)];
      return Pass;
    }

    method Clear() returns (o: Outcome)
      requires Valid()
      modifies this
      ensures Optimizer.Step(o, State()) == Optimizer.Clear(old(State()))
      ensures Valid()
    {
      o := StopSolver();
      if o.Fail? {
        return;
      }
      tsp := new TspSolution();
      PublishRoute(tsp);
    }

    /** Environment step: the running solver processes the queued changes on
        its own working solution, a copy distinct from `tsp`. */
    method ProcessProblemFactChanges(working: TspSolution) returns (o: Outcome)
      requires solverStarted && !taskDone && working != tsp
      modifies this, working
      ensures var p := Optimizer.ProcessChanges(old(State()), old(working.Value()));
        o == p.outcome && State() == p.after && working.Value() == p.working
    {
      ghost var own := tsp.Value();
      var changes := pending;
      pending := [];
      ghost var result := Changes.ApplyAll(old(working.Value()), changes);
      var i := 0;
      o := Pass;
      while i < |changes|
        invariant i <= |changes|
        invariant result == Changes.ApplyAll(working.Value(), changes[i..])
        modifies working
      {
        ghost var before := working.Value();
        var r := working.Apply(changes[i]);
        if r.Fail? {
          o := r;
          assert result == Changes.ChangeResult(o, working.Value());
          break;
        }
        Changes.ApplyAllStep(before, changes[i..], Changes.ChangeResult(r, working.Value()));
        assert changes[i..][1..] == changes[i + 1..];
        i := i + 1;
      }
      assert result == Changes.ChangeResult(o, working.Value()) by {
        if o.Pass? {
          assert changes[i..] == [];
        }
      }
      taskDone, taskFailed := o.Fail?, o.Fail?;
      assert tsp.Value() == own;
    }

    /** Environment step: the background task ends by itself. */
    method TaskEnds(failed: bool)
      requires solverStarted && !taskDone
      modifies this
      ensures State() == Optimizer.TaskEnds(old(State()), failed)
    {
      taskDone, taskFailed := true, failed;
    }
  }
}
