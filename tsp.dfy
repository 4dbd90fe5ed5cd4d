/** The planner-side data of the travelling-salesman solution that the route
    optimizer keeps: locations named by id, one optional domicile, and visits
    that point back at their previous standstill. */
module Tsp {

  /** Locations are identified by their id only; coordinates and distances are
      not part of this model. */
  type LocationId = int

  datatype Option<+T> = None | Some(value: T)

  /** The exceptions the optimizer and its problem fact changes can raise. */
  datatype Error =
    | SolverAlreadyStarted            // IllegalStateException on a second start
    | SolverDied                      // the background task failed
    | SolverFinishedInDaemonMode      // the background task ended without failing
    | StopFailed                      // the background task failed while stopping
    | ImpossibleLocationCount(count: nat)  // removal while idle with a count other than 1
    | DomicileRemoval                 // UnsupportedOperationException
    | VisitNotFound                   // IllegalArgumentException in the visit-removal change
    | WorkingCopyNotFound             // no working copy of the location to remove
    | NullReference                   // dereference of a null domicile or previous standstill

  datatype Outcome = Pass | Fail(error: Error)

  datatype Result<+T> = Ok(value: T) | Err(error: Error)

  /** What a visit's previous standstill refers to: the domicile, or the visit
      whose key is given. */
  datatype Standstill = DomicileRef | VisitRef(key: nat)

  /** A visit of `location`. The source gives each visit its location's id; the
      `key` stands for the identity of the visit object, which is what the
      successor map and the relinking compare. */
  datatype Visit = Visit(key: nat, location: LocationId, previous: Option<Standstill>)

  /** A snapshot of a solution object. `nextKey` is the next identity a newly
      created visit receives. */
  datatype Solution = Solution(
    locations: seq<LocationId>,
    visits: seq<Visit>,
    domicile: Option<LocationId>,
    score: int,
    nextKey: nat)

  /** No two visits share an identity. */
  predicate DistinctKeys(vs: seq<Visit>) {
    forall i, j :: 0 <= i < |vs| && 0 <= j < |vs| && vs[i].key == vs[j].key ==> i == j
  }

  /** Every visit identity, own or referred to, was handed out before `nextKey`. */
  predicate WellKeyed(s: Solution) {
    && DistinctKeys(s.visits)
    && (forall i :: 0 <= i < |s.visits| ==> s.visits[i].key < s.nextKey)
    && (forall i :: 0 <= i < |s.visits| && s.visits[i].previous.Some? && s.visits[i].previous.value.VisitRef?
          ==> s.visits[i].previous.value.key < s.nextKey)
  }

  /** The source's empty solution: no locations, no visits, no domicile, score zero. */
  function EmptySolution(): (s: Solution)
    ensures WellKeyed(s)
  {
    Solution([], [], None, 0, 0)
  }

  /** `s` without its element at index `i`. */
  function RemoveAt<T>(s: seq<T>, i: nat): (r: seq<T>)
    requires i < |s|
    ensures |r| == |s| - 1
    ensures forall j :: 0 <= j < i ==> r[j] == s[j]
    ensures forall j :: i <= j < |r| ==> r[j] == s[j + 1]
    ensures multiset(r) == multiset(s) - multiset{s[i]}
  {
    assert s == s[..i] + [s[i]] + s[i + 1..];
    s[..i] + s[i + 1..]
  }

  /** The first visit of `loc`, as `stream().filter(...).findFirst()` finds it. */
  function IndexOfVisitAt(vs: seq<Visit>, loc: LocationId): (r: Option<nat>)
    ensures r.Some? ==> r.value < |vs| && vs[r.value].location == loc
    ensures r.Some? ==> forall j :: 0 <= j < r.value ==> vs[j].location != loc
    ensures r.None? <==> forall j :: 0 <= j < |vs| ==> vs[j].location != loc
  {
    if vs == [] then None
    else if vs[0].location == loc then Some(0)
    else match IndexOfVisitAt(vs[1..], loc)
      case None => None
      case Some(j) => Some(j + 1)
  }

  /** The first location with id `loc`: the working copy looked up by id. */
  function IndexOfLocation(locs: seq<LocationId>, loc: LocationId): (r: Option<nat>)
    ensures r.Some? ==> r.value < |locs| && locs[r.value] == loc
    ensures r.Some? ==> forall j :: 0 <= j < r.value ==> locs[j] != loc
    ensures r.None? <==> loc !in locs
  {
    if locs == [] then None
    else if locs[0] == loc then Some(0)
    else match IndexOfLocation(locs[1..], loc)
      case None => None
      case Some(j) => Some(j + 1)
  }

  /** `removeIf(l -> l.getId().equals(loc))`: every location with that id goes,
      every other stays, in order. */
  function WithoutLocation(locs: seq<LocationId>, loc: LocationId): (r: seq<LocationId>)
    ensures multiset(r) == multiset(locs)[loc := 0]
    ensures forall x :: x in r <==> x in locs && x != loc
    ensures loc !in locs ==> r == locs
  {
    if locs == [] then []
    else
      assert locs == [locs[0]] + locs[1..];
      if locs[0] == loc then WithoutLocation(locs[1..], loc)
      else [locs[0]] + WithoutLocation(locs[1..], loc)
  }

  /** `removeIf` works element by element, so it keeps the order of what
      stays: removing from a concatenation removes from each part. */
  lemma {:induction false} WithoutLocationConcat(a: seq<LocationId>, b: seq<LocationId>, loc: LocationId)
    ensures WithoutLocation(a + b, loc) == WithoutLocation(a, loc) + WithoutLocation(b, loc)
    decreases |a|
  {
    if a == [] {
      assert a + b == b;
    } else {
      assert (a + b)[1..] == a[1..] + b;
      assert (a + b)[0] == a[0];
      WithoutLocationConcat(a[1..], b, loc);
    }
  }

  /** The locations of the visits, in list order. */
  function LocationsOf(vs: seq<Visit>): (r: seq<LocationId>)
    ensures |r| == |vs|
    ensures forall i :: 0 <= i < |vs| ==> r[i] == vs[i].location
  {
    if vs == [] then [] else [vs[0].location] + LocationsOf(vs[1..])
  }
}
