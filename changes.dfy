/** The problem fact changes the optimizer hands to a running solver, as edits
    of the solver's working solution, and what applying them in order does. */
module Changes {
  import opened Tsp
  import opened Extraction

  datatype ProblemFactChange =
    | AddLocationChange(location: LocationId)     // add a location and its visit
    | RemoveVisitChange(location: LocationId)     // remove the visit and relink its successor
    | RemoveLocationChange(location: LocationId)  // remove the location looked up by id

  /** What a change reports, and the working solution it leaves behind (on a
      failure, as far as the change got before it threw). */
  datatype ChangeResult = ChangeResult(outcome: Outcome, after: Solution)

  /** The working solution gains the location and a new visit of it whose
      previous standstill is still unset. */
  function AddVisit(s: Solution, loc: LocationId): (r: Solution)
    ensures r.domicile == s.domicile && r.score == s.score
    ensures r.locations == s.locations + [loc]
    ensures |r.visits| == |s.visits| + 1 && r.visits[..|s.visits|] == s.visits
    ensures r.visits[|s.visits|].location == loc && r.visits[|s.visits|].previous.None?
    ensures WellKeyed(s) ==> WellKeyed(r)
  {
    s.(locations := s.locations + [loc],
       visits := s.visits + [Visit(s.nextKey, loc, None)],
       nextKey := s.nextKey + 1)
  }

  /** The relink loop: scan the visits in order; the first one pointing at the
      removed visit is repointed at `newPrevious` and the scan stops. A visit
      met before that with no previous standstill is dereferenced and throws. */
  function RelinkSuccessor(vs: seq<Visit>, removedKey: nat, newPrevious: Option<Standstill>): (r: Result<seq<Visit>>)
    ensures r.Err? ==> r.error == NullReference
    ensures r.Ok? ==> |r.value| == |vs|
    decreases |vs|
  {
    if vs == [] then Ok([])
    else if vs[0].previous.None? then Err(NullReference)
    else if vs[0].previous == Some(VisitRef(removedKey)) then Ok([vs[0].(previous := newPrevious)] + vs[1..])
    else match RelinkSuccessor(vs[1..], removedKey, newPrevious)
      case Err(e) => Err(e)
      case Ok(t) => Ok([vs[0]] + t)
  }

  /** Find the first visit of `loc` (or throw), take it out of the list, then relink. */
  function RemoveVisit(s: Solution, loc: LocationId): (r: ChangeResult)
    ensures r.after == s.(visits := r.after.visits)
    ensures r.outcome.Fail? ==> r.outcome.error == VisitNotFound || r.outcome.error == NullReference
    ensures r.outcome != Fail(VisitNotFound) ==> |r.after.visits| == |s.visits| - 1
  {
    match IndexOfVisitAt(s.visits, loc)
    case None => ChangeResult(Fail(VisitNotFound), s)
    case Some(j) =>
      var v := s.visits[j];
      var rest := RemoveAt(s.visits, j);
      match RelinkSuccessor(rest, v.key, v.previous)
      case Err(e) => ChangeResult(Fail(e), s.(visits := rest))
      case Ok(t) => ChangeResult(Pass, s.(visits := t))
  }

  /** Look up the working copy of the location by id (or throw) and remove it. */
  function RemoveLocation(s: Solution, loc: LocationId): (r: ChangeResult)
    ensures r.outcome.Pass? <==> loc in s.locations
    ensures r.outcome.Fail? ==> r.outcome.error == WorkingCopyNotFound && r.after == s
    ensures r.outcome.Pass? ==>
      && multiset(r.after.locations) == multiset(s.locations) - multiset{loc}
      && r.after == s.(locations := r.after.locations)
  {
    match IndexOfLocation(s.locations, loc)
    case None => ChangeResult(Fail(WorkingCopyNotFound), s)
    case Some(k) => ChangeResult(Pass, s.(locations := RemoveAt(s.locations, k)))
  }

  /** One change applied to the working solution. No change touches the
      domicile, and only the two removals can throw. */
  function Apply(s: Solution, c: ProblemFactChange): (r: ChangeResult)
    ensures r.after.domicile == s.domicile
    ensures r.outcome.Fail? ==> !c.AddLocationChange?
    ensures r.outcome.Fail? ==> (r.outcome.error == VisitNotFound || r.outcome.error == NullReference || r.outcome.error == WorkingCopyNotFound)
  {
    match c
    case AddLocationChange(loc) => ChangeResult(Pass, AddVisit(s, loc))
    case RemoveVisitChange(loc) => RemoveVisit(s, loc)
    case RemoveLocationChange(loc) => RemoveLocation(s, loc)
  }

  /** The solver applies queued changes in submission order; the first one that
      throws ends the batch. */
  function ApplyAll(s: Solution, cs: seq<ProblemFactChange>): (r: ChangeResult)
    ensures r.after.domicile == s.domicile
    ensures r.outcome.Fail? ==> (r.outcome.error == VisitNotFound || r.outcome.error == NullReference || r.outcome.error == WorkingCopyNotFound)
    decreases |cs|
  {
    if cs == [] then ChangeResult(Pass, s)
    else
      var r := Apply(s, cs[0]);
      if r.outcome.Fail? then r else ApplyAll(r.after, cs[1..])
  }

  // ---------------------------------------------------------------------------
  // The relink loop

  /** The relink throws exactly when a visit without a previous standstill comes
      before every visit pointing at the removed one. */
  lemma {:induction false} RelinkFails(vs: seq<Visit>, key: nat, p: Option<Standstill>)
    ensures RelinkSuccessor(vs, key, p).Err? <==>
      exists i :: 0 <= i < |vs| && vs[i].previous.None? &&
        forall j :: 0 <= j < i ==> vs[j].previous != Some(VisitRef(key))
    ensures RelinkSuccessor(vs, key, p).Err? ==> RelinkSuccessor(vs, key, p).error == NullReference
    decreases |vs|
  {
    if vs != [] && vs[0].previous.Some? && vs[0].previous != Some(VisitRef(key)) {
      RelinkFails(vs[1..], key, p);
      if exists i :: 0 <= i < |vs| && vs[i].previous.None? &&
           forall j :: 0 <= j < i ==> vs[j].previous != Some(VisitRef(key)) {
        var i :| 0 <= i < |vs| && vs[i].previous.None? &&
           forall j :: 0 <= j < i ==> vs[j].previous != Some(VisitRef(key));
        assert i > 0;
        forall j | 0 <= j < i - 1 ensures vs[1..][j].previous != Some(VisitRef(key)) {
          assert vs[1..][j] == vs[j + 1];
        }
        assert vs[1..][i - 1].previous.None?;
      }
      if RelinkSuccessor(vs, key, p).Err? {
        var i :| 0 <= i < |vs[1..]| && vs[1..][i].previous.None? &&
           forall j :: 0 <= j < i ==> vs[1..][j].previous != Some(VisitRef(key));
        forall j | 0 <= j < i + 1 ensures vs[j].previous != Some(VisitRef(key)) {
          if j > 0 { assert vs[j] == vs[1..][j - 1]; }
        }
        assert vs[i + 1].previous.None?;
      }
    }
  }

  /** Only the first visit pointing at the removed one is repointed; every
      other visit, including later ones pointing at it too, is left as it was. */
  lemma {:induction false} RelinkFirst(vs: seq<Visit>, key: nat, p: Option<Standstill>, m: nat)
    requires m < |vs| && vs[m].previous == Some(VisitRef(key))
    requires forall j :: 0 <= j < m ==> vs[j].previous.Some? && vs[j].previous != Some(VisitRef(key))
    ensures RelinkSuccessor(vs, key, p) == Ok(vs[m := vs[m].(previous := p)])
    decreases |vs|
  {
    if m == 0 {
      assert [vs[0].(previous := p)] + vs[1..] == vs[m := vs[m].(previous := p)];
    } else {
      forall j | 0 <= j < m - 1
        ensures vs[1..][j].previous.Some? && vs[1..][j].previous != Some(VisitRef(key))
      {
        assert vs[1..][j] == vs[j + 1];
      }
      RelinkFirst(vs[1..], key, p, m - 1);
      assert [vs[0]] + vs[1..][m - 1 := vs[m].(previous := p)] == vs[m := vs[m].(previous := p)];
    }
  }

  /** With every visit connected and none pointing at the removed one, the
      relink leaves the list as it is. */
  lemma {:induction false} RelinkNoSuccessor(vs: seq<Visit>, key: nat, p: Option<Standstill>)
    requires AllConnected(vs)
    requires forall j :: 0 <= j < |vs| ==> vs[j].previous != Some(VisitRef(key))
    ensures RelinkSuccessor(vs, key, p) == Ok(vs)
    decreases |vs|
  {
    if vs != [] {
      RelinkNoSuccessor(vs[1..], key, p);
      assert [vs[0]] + vs[1..] == vs;
    }
  }

  /** A successful relink changes nothing but previous standstills, and sets
      those only to `p`. */
  lemma {:induction false} RelinkShape(vs: seq<Visit>, key: nat, p: Option<Standstill>)
    ensures var r := RelinkSuccessor(vs, key, p);
      r.Ok? ==>
        && |r.value| == |vs|
        && (forall i :: 0 <= i < |vs| ==>
              r.value[i].key == vs[i].key && r.value[i].location == vs[i].location &&
              (r.value[i] == vs[i] || r.value[i].previous == p))
    decreases |vs|
  {
    if vs != [] && vs[0].previous == Some(VisitRef(key)) {
      var t := [vs[0].(previous := p)] + vs[1..];
      forall i | 0 <= i < |vs|
        ensures t[i].key == vs[i].key && t[i].location == vs[i].location && (t[i] == vs[i] || t[i].previous == p)
      {
        if i > 0 { assert t[i] == vs[i]; }
      }
    } else if vs != [] && vs[0].previous.Some? {
      RelinkShape(vs[1..], key, p);
      var r := RelinkSuccessor(vs[1..], key, p);
      if r.Ok? {
        var t := [vs[0]] + r.value;
        forall i | 0 <= i < |vs|
          ensures t[i].key == vs[i].key && t[i].location == vs[i].location && (t[i] == vs[i] || t[i].previous == p)
        {
          if i > 0 { assert t[i] == r.value[i - 1] && vs[i] == vs[1..][i - 1]; }
        }
      }
    }
  }

  // ---------------------------------------------------------------------------
  // Single changes

  /** Every change keeps visit identities distinct and handed out. */
  lemma ApplyKeepsWellKeyed(s: Solution, c: ProblemFactChange)
    requires WellKeyed(s)
    ensures WellKeyed(Apply(s, c).after)
  {
    match c
    case AddLocationChange(loc) =>
    case RemoveLocationChange(loc) =>
    case RemoveVisitChange(loc) =>
      match IndexOfVisitAt(s.visits, loc)
      case None =>
      case Some(j) =>
        RemoveAtKeepsWellKeyed(s, j);
        RelinkKeepsWellKeyed(s.(visits := RemoveAt(s.visits, j)), s.visits[j].key, s.visits[j].previous);
  }

  lemma RemoveAtKeepsWellKeyed(s: Solution, j: nat)
    requires WellKeyed(s) && j < |s.visits|
    ensures WellKeyed(s.(visits := RemoveAt(s.visits, j)))
    ensures var p := s.visits[j].previous; p.Some? && p.value.VisitRef? ==> p.value.key < s.nextKey
  {
    var rest := RemoveAt(s.visits, j);
    forall a, b | 0 <= a < |rest| && 0 <= b < |rest| && rest[a].key == rest[b].key ensures a == b {
      var a' := if a < j then a else a + 1;
      var b' := if b < j then b else b + 1;
      assert rest[a] == s.visits[a'] && rest[b] == s.visits[b'];
    }
    forall i | 0 <= i < |rest| ensures rest[i] in s.visits { }
  }

  lemma RelinkKeepsWellKeyed(s: Solution, key: nat, p: Option<Standstill>)
    requires WellKeyed(s)
    requires p.Some? && p.value.VisitRef? ==> p.value.key < s.nextKey
    ensures var r := RelinkSuccessor(s.visits, key, p);
      r.Ok? ==> WellKeyed(s.(visits := r.value))
  {
    RelinkShape(s.visits, key, p);
  }

  lemma {:induction false} ApplyAllKeepsWellKeyed(s: Solution, cs: seq<ProblemFactChange>)
    requires WellKeyed(s)
    ensures WellKeyed(ApplyAll(s, cs).after)
    decreases |cs|
  {
    if cs != [] {
      ApplyKeepsWellKeyed(s, cs[0]);
      if Apply(s, cs[0]).outcome.Pass? {
        ApplyAllKeepsWellKeyed(Apply(s, cs[0]).after, cs[1..]);
      }
    }
  }

  /** Adding grows the location list by exactly the location and the visit list
      by exactly one visit of it, leaving existing entries as they were; the new
      visit is not yet linked, so no route can be extracted until the solver
      links it. */
  lemma AddVisitEffect(s: Solution, loc: LocationId)
    ensures var a := AddVisit(s, loc);
      && a.locations[..|s.locations|] == s.locations && |a.locations| == |s.locations| + 1
      && a.locations[|s.locations|] == loc
      && a.visits[..|s.visits|] == s.visits && |a.visits| == |s.visits| + 1
      && a.visits[|s.visits|].location == loc && a.visits[|s.visits|].previous.None?
      && a.domicile == s.domicile
      && RouteOf(a.domicile, a.visits).None?
  {
    var a := AddVisit(s, loc);
    RouteAbsentIffUnconnected(a.domicile, a.visits);
    assert a.visits[|s.visits|].previous.None?;
  }

  /** The visit-removal change throws "not found" exactly when no visit has the
      location, and then changes nothing. When every visit is connected it
      cannot fail otherwise; on success one visit of the location goes, the
      visit count drops by one and locations and domicile stay. */
  lemma RemoveVisitEffect(s: Solution, loc: LocationId)
    ensures var r := RemoveVisit(s, loc);
      && (r.outcome == Fail(VisitNotFound) <==> forall i :: 0 <= i < |s.visits| ==> s.visits[i].location != loc)
      && (r.outcome == Fail(VisitNotFound) ==> r.after == s)
      && (AllConnected(s.visits) ==> r.outcome.Pass? || r.outcome == Fail(VisitNotFound))
      && (r.outcome.Pass? ==>
            && |r.after.visits| == |s.visits| - 1
            && multiset(LocationsOf(r.after.visits)) == multiset(LocationsOf(s.visits)) - multiset{loc}
            && r.after == s.(visits := r.after.visits))
  {
    match IndexOfVisitAt(s.visits, loc)
    case None =>
    case Some(j) =>
      var v := s.visits[j];
      var rest := RemoveAt(s.visits, j);
      RelinkFails(rest, v.key, v.previous);
      if AllConnected(s.visits) {
        RemoveAtConnected(s.visits, j);
      }
      if RelinkSuccessor(rest, v.key, v.previous).Ok? {
        RelinkKeepsLocations(rest, v.key, v.previous);
        LocationsOfRemoveAt(s.visits, j);
        TakeBack(multiset(LocationsOf(s.visits)), multiset(LocationsOf(rest)), loc);
      }
  }

  lemma RemoveAtConnected(vs: seq<Visit>, j: nat)
    requires AllConnected(vs) && j < |vs|
    ensures AllConnected(RemoveAt(vs, j))
  {
    var rest := RemoveAt(vs, j);
    forall i | 0 <= i < |rest| ensures rest[i].previous.Some? {
      assert rest[i] == vs[if i < j then i else i + 1];
    }
  }

  /** A successful relink keeps the visit count and every visit's location. */
  lemma RelinkKeepsLocations(vs: seq<Visit>, key: nat, p: Option<Standstill>)
    requires RelinkSuccessor(vs, key, p).Ok?
    ensures |RelinkSuccessor(vs, key, p).value| == |vs|
    ensures LocationsOf(RelinkSuccessor(vs, key, p).value) == LocationsOf(vs)
  {
    RelinkShape(vs, key, p);
  }

  lemma TakeBack<T>(all: multiset<T>, others: multiset<T>, x: T)
    requires all == others + multiset{x}
    ensures others == all - multiset{x}
  {
  }

  // ---------------------------------------------------------------------------
  // Chains

  /** The chain with its `k`-th visit cut out and the next visit hung on the cut
      visit's predecessor. */
  function ChainWithout(order: seq<Visit>, k: nat): seq<Visit>
    requires k < |order|
  {
    if k + 1 < |order| then order[..k] + [order[k + 1].(previous := order[k].previous)] + order[k + 2..]
    else order[..k]
  }

  /** Where the visits of `ChainWithout(order, k)` come from. */
  lemma ChainWithoutAt(order: seq<Visit>, k: nat, i: nat)
    requires k < |order| && i < |order| - 1
    ensures |ChainWithout(order, k)| == |order| - 1
    ensures ChainWithout(order, k)[i] ==
      if i < k then order[i]
      else if i == k then order[k + 1].(previous := order[k].previous)
      else order[i + 1]
  {
  }

  lemma ChainWithoutIsChain(order: seq<Visit>, k: nat)
    requires IsChain(order) && k < |order|
    ensures IsChain(ChainWithout(order, k))
    ensures |ChainWithout(order, k)| == |order| - 1
  {
    var o := ChainWithout(order, k);
    ChainWithoutDistinct(order, k);
    forall i | 0 <= i < |o| ensures o[i].previous == Some(ChainLink(o, i)) {
      ChainWithoutLinkAt(order, k, i);
    }
  }

  lemma ChainWithoutDistinct(order: seq<Visit>, k: nat)
    requires DistinctKeys(order) && k < |order|
    ensures DistinctKeys(ChainWithout(order, k))
    ensures |ChainWithout(order, k)| == |order| - 1
  {
    var o := ChainWithout(order, k);
    forall i | 0 <= i < |o| ensures o[i].key == order[if i < k then i else i + 1].key {
      ChainWithoutAt(order, k, i);
    }
    forall a, b | 0 <= a < |o| && 0 <= b < |o| && o[a].key == o[b].key ensures a == b {
      var a' := if a < k then a else a + 1;
      var b' := if b < k then b else b + 1;
      assert order[a'].key == order[b'].key;
    }
  }

  lemma ChainWithoutLinkAt(order: seq<Visit>, k: nat, i: nat)
    requires IsChain(order) && k < |order| && i < |order| - 1
    ensures ChainWithout(order, k)[i].previous == Some(ChainLink(ChainWithout(order, k), i))
  {
    var o := ChainWithout(order, k);
    ChainWithoutAt(order, k, i);
    if i > 0 { ChainWithoutAt(order, k, i - 1); }
    if i < k {
      assert o[i].previous == order[i].previous == Some(ChainLink(order, i));
    } else if i == k {
      assert o[i].previous == order[k].previous == Some(ChainLink(order, k));
    } else {
      assert o[i].previous == order[i + 1].previous == Some(ChainLink(order, i + 1));
    }
  }

  lemma MultisetUpdate<T>(s: seq<T>, i: nat, x: T)
    requires i < |s|
    ensures multiset(s[i := x]) == multiset(s) - multiset{s[i]} + multiset{x}
  {
    assert s == s[..i] + [s[i]] + s[i + 1..];
    assert s[i := x] == s[..i] + [x] + s[i + 1..];
  }

  /** Removing a visit of a chain keeps the visits one chain from the domicile:
      the cut visit's successor now points at the cut visit's predecessor. */
  lemma RemoveVisitKeepsChain(s: Solution, loc: LocationId, order: seq<Visit>) returns (after: Solution)
    requires ChainOf(s.visits, order)
    requires exists i :: 0 <= i < |s.visits| && s.visits[i].location == loc
    ensures RemoveVisit(s, loc) == ChangeResult(Pass, after)
    ensures exists k :: 0 <= k < |order| && order[k].location == loc && ChainOf(after.visits, ChainWithout(order, k))
    ensures Chained(after.visits)
  {
    var j := IndexOfVisitAt(s.visits, loc).value;
    var v := s.visits[j];
    var rest := RemoveAt(s.visits, j);
    assert v in multiset(order);
    var k :| 0 <= k < |order| && order[k] == v;
    var t := RelinkCutChain(rest, order, k);
    after := s.(visits := t);
    assert RemoveVisit(s, loc) == ChangeResult(Pass, after);
  }

  /** After the `k`-th visit of a chain is taken out of the list, the relink
      succeeds and yields the chain with that visit cut out. */
  lemma RelinkCutChain(rest: seq<Visit>, order: seq<Visit>, k: nat) returns (t: seq<Visit>)
    requires IsChain(order) && k < |order|
    requires multiset(rest) == multiset(order) - multiset{order[k]}
    ensures RelinkSuccessor(rest, order[k].key, order[k].previous) == Ok(t)
    ensures ChainOf(t, ChainWithout(order, k))
  {
    ChainWithoutIsChain(order, k);
    CutChainRest(rest, order, k);
    if k + 1 < |order| {
      assert order[k].key != order[k + 1].key;
      t := RelinkCutInner(rest, order, k);
    } else {
      RelinkNoSuccessor(rest, order[k].key, order[k].previous);
      t := rest;
      assert order == order[..k] + [order[k]];
    }
  }

  /** What is left of a chain once its `k`-th visit is taken out: connected
      visits, among which only the chain successor points at the cut visit. */
  lemma CutChainRest(rest: seq<Visit>, order: seq<Visit>, k: nat)
    requires IsChain(order) && k < |order|
    requires multiset(rest) == multiset(order) - multiset{order[k]}
    ensures AllConnected(rest)
    ensures forall m :: 0 <= m < |rest| && rest[m].previous == Some(VisitRef(order[k].key)) ==>
      k + 1 < |order| && rest[m] == order[k + 1]
  {
    forall i | 0 <= i < |rest| ensures rest[i].previous.Some? {
      assert rest[i] in multiset(rest);
    }
    forall m | 0 <= m < |rest| && rest[m].previous == Some(VisitRef(order[k].key))
      ensures k + 1 < |order| && rest[m] == order[k + 1]
    {
      assert rest[m] in multiset(rest);
      var i :| 0 <= i < |order| && order[i] == rest[m];
      ChainLinkInjective(order, i, k + 1);
    }
  }

  /** `RelinkCutChain` when the cut visit `order[k]` has a successor. */
  lemma RelinkCutInner(rest: seq<Visit>, order: seq<Visit>, k: nat) returns (t: seq<Visit>)
    requires k + 1 < |order| && order[k] != order[k + 1]
    requires order[k + 1].previous == Some(VisitRef(order[k].key))
    requires multiset(rest) == multiset(order) - multiset{order[k]}
    requires AllConnected(rest)
    requires forall m :: 0 <= m < |rest| && rest[m].previous == Some(VisitRef(order[k].key)) ==> rest[m] == order[k + 1]
    ensures RelinkSuccessor(rest, order[k].key, order[k].previous) == Ok(t)
    ensures multiset(t) == multiset(ChainWithout(order, k))
  {
    var v, w := order[k], order[k + 1];
    var w' := w.(previous := v.previous);
    var others := ChainCutParts(order, k);
    assert w in multiset(rest);
    var m0 :| 0 <= m0 < |rest| && rest[m0] == w;
    var m := FirstLinkTo(rest, v.key, m0);
    RelinkFirst(rest, v.key, v.previous, m);
    t := rest[m := w'];
    assert rest[m] == w;
    MultisetUpdate(rest, m, w');
    SwapOne(multiset(rest), others, w, w');
  }

  /** The multisets of a chain around its `k`-th visit, before and after the cut. */
  lemma ChainCutParts(order: seq<Visit>, k: nat) returns (others: multiset<Visit>)
    requires k + 1 < |order|
    ensures multiset(order) - multiset{order[k]} == others + multiset{order[k + 1]}
    ensures multiset(ChainWithout(order, k)) == others + multiset{order[k + 1].(previous := order[k].previous)}
  {
    others := multiset(order[..k]) + multiset(order[k + 2..]);
    assert order == order[..k] + [order[k]] + [order[k + 1]] + order[k + 2..];
    assert ChainWithout(order, k) == order[..k] + [order[k + 1].(previous := order[k].previous)] + order[k + 2..];
  }

  lemma SwapOne<T>(all: multiset<T>, others: multiset<T>, x: T, y: T)
    requires all == others + multiset{x}
    ensures all - multiset{x} + multiset{y} == others + multiset{y}
  {
  }

  /** The first index at or before `m0` whose visit points at `key`. */
  lemma FirstLinkTo(vs: seq<Visit>, key: nat, m0: nat) returns (m: nat)
    requires m0 < |vs| && vs[m0].previous == Some(VisitRef(key))
    ensures m <= m0 && vs[m].previous == Some(VisitRef(key))
    ensures forall j :: 0 <= j < m ==> vs[j].previous != Some(VisitRef(key))
  {
    m := 0;
    while vs[m].previous != Some(VisitRef(key))
      invariant m <= m0
      invariant forall j :: 0 <= j < m ==> vs[j].previous != Some(VisitRef(key))
      decreases m0 - m
    {
      m := m + 1;
    }
  }

  // ---------------------------------------------------------------------------
  // Batches

  /** A solution as the running solver keeps it: a domicile, visits forming one
      chain from it, and exactly the domicile's and the visits' locations. */
  ghost predicate Consistent(s: Solution) {
    && WellKeyed(s)
    && s.domicile.Some?
    && Chained(s.visits)
    && multiset(s.locations) == multiset{s.domicile.value} + multiset(LocationsOf(s.visits))
  }

  /** The two-change removal batch, applied to a consistent solution for a
      location that has a visit, succeeds and leaves a consistent solution
      with that location and one visit fewer and the same domicile. */
  lemma RemovalBatchKeepsConsistent(s: Solution, loc: LocationId)
    requires Consistent(s)
    requires exists i :: 0 <= i < |s.visits| && s.visits[i].location == loc
    ensures var r := ApplyAll(s, [RemoveVisitChange(loc), RemoveLocationChange(loc)]);
      && r.outcome == Pass
      && Consistent(r.after)
      && multiset(r.after.locations) == multiset(s.locations) - multiset{loc}
      && |r.after.visits| == |s.visits| - 1
      && r.after.domicile == s.domicile
  {
    var after := RemovalKeepsConsistent(s, loc);
    RemovalBatchSteps(s, loc);
  }

  /** The two changes of the removal batch one after the other, on a
      consistent solution. */
  lemma RemovalKeepsConsistent(s: Solution, loc: LocationId) returns (after: Solution)
    requires Consistent(s)
    requires exists i :: 0 <= i < |s.visits| && s.visits[i].location == loc
    ensures RemoveVisit(s, loc).outcome == Pass && loc in RemoveVisit(s, loc).after.locations
    ensures RemoveLocation(RemoveVisit(s, loc).after, loc) == ChangeResult(Pass, after)
    ensures Consistent(after)
    ensures multiset(after.locations) == multiset(s.locations) - multiset{loc}
    ensures |after.visits| == |s.visits| - 1 && after.domicile == s.domicile
  {
    var order :| ChainOf(s.visits, order);
    var r1 := RemoveVisitKeepsConsistent(s, loc, order);
    TakeOneOut(s.locations, s.domicile.value, LocationsOf(s.visits), loc);
    after := LocationRemovalKeepsConsistent(r1, loc);
  }

  /** Removing the location whose visit is already gone restores consistency. */
  lemma LocationRemovalKeepsConsistent(s: Solution, loc: LocationId) returns (after: Solution)
    requires WellKeyed(s) && s.domicile.Some? && Chained(s.visits) && loc in s.locations
    requires multiset(s.locations) - multiset{loc} == multiset{s.domicile.value} + multiset(LocationsOf(s.visits))
    ensures RemoveLocation(s, loc) == ChangeResult(Pass, after)
    ensures Consistent(after)
    ensures multiset(after.locations) == multiset(s.locations) - multiset{loc}
    ensures after == s.(locations := after.locations)
  {
    after := RemoveLocation(s, loc).after;
  }

  /** The visit removal alone, on a solution whose visits form a chain: it
      passes, keeps the visits one chain and takes one visit of the location
      away. */
  lemma RemoveVisitKeepsConsistent(s: Solution, loc: LocationId, order: seq<Visit>) returns (after: Solution)
    requires WellKeyed(s) && ChainOf(s.visits, order)
    requires exists i :: 0 <= i < |s.visits| && s.visits[i].location == loc
    ensures RemoveVisit(s, loc) == ChangeResult(Pass, after)
    ensures WellKeyed(after) && Chained(after.visits)
    ensures after == s.(visits := after.visits)
    ensures |after.visits| == |s.visits| - 1
    ensures loc in LocationsOf(s.visits)
    ensures multiset(LocationsOf(after.visits)) == multiset(LocationsOf(s.visits)) - multiset{loc}
  {
    after := RemoveVisitKeepsChain(s, loc, order);
    assert WellKeyed(after) by {
      ApplyKeepsWellKeyed(s, RemoveVisitChange(loc));
    }
    assert after == s.(visits := after.visits) && |after.visits| == |s.visits| - 1
        && multiset(LocationsOf(after.visits)) == multiset(LocationsOf(s.visits)) - multiset{loc} by {
      RemoveVisitEffect(s, loc);
    }
    var i :| 0 <= i < |s.visits| && s.visits[i].location == loc;
    assert LocationsOf(s.visits)[i] == loc;
  }

  lemma TakeOneOut(all: seq<LocationId>, d: LocationId, locs: seq<LocationId>, loc: LocationId)
    requires multiset(all) == multiset{d} + multiset(locs)
    requires loc in locs
    ensures loc in all
    ensures multiset(all) - multiset{loc} == multiset{d} + (multiset(locs) - multiset{loc})
  {
    assert loc in multiset(all);
  }

  /** The removal batch, once its visit removal passes on a solution holding the
      location, is the two single changes one after the other. */
  lemma RemovalBatchSteps(s: Solution, loc: LocationId)
    requires RemoveVisit(s, loc).outcome == Pass
    requires loc in RemoveVisit(s, loc).after.locations
    ensures ApplyAll(s, [RemoveVisitChange(loc), RemoveLocationChange(loc)])
         == RemoveLocation(RemoveVisit(s, loc).after, loc)
  {
    var cs := [RemoveVisitChange(loc), RemoveLocationChange(loc)];
    var r1 := RemoveVisit(s, loc);
    var r2 := RemoveLocation(r1.after, loc);
    ApplyAllStep(s, cs, r1);
    ApplyAllStep(r1.after, cs[1..], r2);
    assert cs[1..][1..] == [];
  }

  /** Adding a new location and then submitting its removal restores the
      solution, apart from the used-up visit identity. */
  lemma AddThenRemoveRestores(s: Solution, loc: LocationId)
    requires WellKeyed(s) && AllConnected(s.visits)
    requires loc !in s.locations
    requires forall i :: 0 <= i < |s.visits| ==> s.visits[i].location != loc
    ensures ApplyAll(s, [AddLocationChange(loc), RemoveVisitChange(loc), RemoveLocationChange(loc)])
         == ChangeResult(Pass, s.(nextKey := s.nextKey + 1))
  {
    var a := AddVisit(s, loc);
    var b := a.(visits := s.visits);
    var c := s.(nextKey := s.nextKey + 1);
    RemoveAddedVisit(s, loc);
    RemoveAddedLocation(b, s.locations, loc);
    ApplyAllThree(s, AddLocationChange(loc), RemoveVisitChange(loc), RemoveLocationChange(loc), a, b, c);
  }

  /** Two locations added in one batch and then the second removed: the first
      new visit is still unlinked when the relink loop scans the list, and
      comparing its null previous standstill throws. */
  lemma QueuedAddsThenRemoveFails(s: Solution, x: LocationId, y: LocationId)
    requires WellKeyed(s) && AllConnected(s.visits) && x != y
    requires forall i :: 0 <= i < |s.visits| ==> s.visits[i].location != y
    ensures ApplyAll(s, [AddLocationChange(x), AddLocationChange(y), RemoveVisitChange(y), RemoveLocationChange(y)]).outcome
         == Fail(NullReference)
  {
    var a1 := AddVisit(s, x);
    var a2 := AddVisit(a1, y);
    SecondAddedVisitRemovalFails(s, x, y);
    ApplyAllThirdFails(s, AddLocationChange(x), AddLocationChange(y), RemoveVisitChange(y), RemoveLocationChange(y), a1, a2);
  }

  /** The visit change for the second of two just-added locations: the
      already linked visits cannot stop the relink scan before the first new
      visit, since none points at the new identity, and that visit's null
      previous standstill throws. */
  lemma SecondAddedVisitRemovalFails(s: Solution, x: LocationId, y: LocationId)
    requires WellKeyed(s) && AllConnected(s.visits) && x != y
    requires forall i :: 0 <= i < |s.visits| ==> s.visits[i].location != y
    ensures Apply(AddVisit(AddVisit(s, x), y), RemoveVisitChange(y)).outcome == Fail(NullReference)
  {
    var a1 := AddVisit(s, x);
    var a2 := AddVisit(a1, y);
    var n := |s.visits|;
    assert IndexOfVisitAt(a2.visits, y) == Some(n + 1) by {
      assert a2.visits[n + 1].location == y;
      forall j | 0 <= j < n + 1 ensures a2.visits[j].location != y {
        assert j < n ==> a2.visits[j] == s.visits[j];
      }
    }
    assert RemoveAt(a2.visits, n + 1) == s.visits + [Visit(s.nextKey, x, None)] by {
      assert a2.visits == s.visits + [Visit(s.nextKey, x, None)] + [Visit(s.nextKey + 1, y, None)];
    }
    assert RelinkSuccessor(s.visits + [Visit(s.nextKey, x, None)], s.nextKey + 1, None).Err? by {
      RelinkReachesUnlinked(s, Visit(s.nextKey, x, None), s.nextKey + 1);
    }
  }

  /** Linked visits none of which points at `key`, then an unlinked one: the
      relink scan reaches the unlinked one and throws. */
  lemma RelinkReachesUnlinked(s: Solution, v: Visit, key: nat)
    requires WellKeyed(s) && AllConnected(s.visits) && key >= s.nextKey && v.previous.None?
    ensures RelinkSuccessor(s.visits + [v], key, None).Err?
  {
    var vs := s.visits + [v];
    var n := |s.visits|;
    assert vs[n].previous.None?;
    forall j | 0 <= j < n ensures vs[j].previous != Some(VisitRef(key)) {
      assert vs[j] == s.visits[j];
    }
    RelinkFails(vs, key, None);
  }

  /** A batch of four whose first two changes pass fails with the third's error. */
  lemma ApplyAllThirdFails(s: Solution, c1: ProblemFactChange, c2: ProblemFactChange, c3: ProblemFactChange,
                           c4: ProblemFactChange, s1: Solution, s2: Solution)
    requires Apply(s, c1) == ChangeResult(Pass, s1)
    requires Apply(s1, c2) == ChangeResult(Pass, s2)
    requires Apply(s2, c3).outcome.Fail?
    ensures ApplyAll(s, [c1, c2, c3, c4]).outcome == Apply(s2, c3).outcome
  {
    var cs := [c1, c2, c3, c4];
    ApplyAllStep(s, cs, ChangeResult(Pass, s1));
    ApplyAllStep(s1, cs[1..], ChangeResult(Pass, s2));
    assert cs[1..][1..][0] == c3;
  }

  /** Three changes that pass one after the other pass as a batch. */
  lemma ApplyAllThree(s: Solution, c1: ProblemFactChange, c2: ProblemFactChange, c3: ProblemFactChange,
                      s1: Solution, s2: Solution, s3: Solution)
    requires Apply(s, c1) == ChangeResult(Pass, s1)
    requires Apply(s1, c2) == ChangeResult(Pass, s2)
    requires Apply(s2, c3) == ChangeResult(Pass, s3)
    ensures ApplyAll(s, [c1, c2, c3]) == ChangeResult(Pass, s3)
  {
    var cs := [c1, c2, c3];
    ApplyAllStep(s, cs, ChangeResult(Pass, s1));
    ApplyAllStep(s1, cs[1..], ChangeResult(Pass, s2));
    ApplyAllStep(s2, cs[2..], ChangeResult(Pass, s3));
    assert cs[2..][1..] == [];
  }

  lemma ApplyAllStep(s: Solution, cs: seq<ProblemFactChange>, first: ChangeResult)
    requires cs != [] && Apply(s, cs[0]) == first && first.outcome.Pass?
    ensures ApplyAll(s, cs) == ApplyAll(first.after, cs[1..])
  {
  }

  lemma RemoveAddedVisit(s: Solution, loc: LocationId)
    requires WellKeyed(s) && AllConnected(s.visits)
    requires forall i :: 0 <= i < |s.visits| ==> s.visits[i].location != loc
    ensures RemoveVisit(AddVisit(s, loc), loc) == ChangeResult(Pass, AddVisit(s, loc).(visits := s.visits))
    ensures Apply(AddVisit(s, loc), RemoveVisitChange(loc)) == ChangeResult(Pass, AddVisit(s, loc).(visits := s.visits))
  {
    var a := AddVisit(s, loc);
    var r := IndexOfVisitAt(a.visits, loc);
    assert r == Some(|s.visits|) by {
      assert a.visits[|s.visits|].location == loc;
    }
    assert a.visits[..|s.visits|] == s.visits;
    assert RemoveAt(a.visits, |s.visits|) == s.visits;
    forall j | 0 <= j < |s.visits| ensures s.visits[j].previous != Some(VisitRef(s.nextKey)) { }
    RelinkNoSuccessor(s.visits, s.nextKey, None);
  }

  lemma RemoveAddedLocation(b: Solution, locs: seq<LocationId>, loc: LocationId)
    requires b.locations == locs + [loc] && loc !in locs
    ensures RemoveLocation(b, loc) == ChangeResult(Pass, b.(locations := locs))
    ensures Apply(b, RemoveLocationChange(loc)) == ChangeResult(Pass, b.(locations := locs))
  {
    var r := IndexOfLocation(b.locations, loc);
    assert r == Some(|locs|) by {
      assert b.locations[|locs|] == loc;
    }
    assert b.locations[..|locs|] == locs;
    assert RemoveAt(b.locations, |locs|) == locs;
  }
}
