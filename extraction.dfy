/** Turning the back-linked visiting order of a solution into an ordered route:
    the specification of `extractRoute` and the properties it promises. */
module Extraction {
  import opened Tsp

  /** Every visit has a previous standstill. */
  predicate AllConnected(vs: seq<Visit>) {
    forall i :: 0 <= i < |vs| ==> vs[i].previous.Some?
  }

  /** The successor map of the source's first loop, continued from `acc`: each
      visit is put under its previous standstill, so a later visit with the same
      predecessor overwrites an earlier one, and the first visit without a
      predecessor abandons the whole extraction. */
  function NextVisitMap(vs: seq<Visit>, acc: map<Standstill, Visit>): (r: Option<map<Standstill, Visit>>)
    ensures r.Some? ==> AllConnected(vs) && acc.Keys <= r.value.Keys
    decreases |vs|
  {
    if vs == [] then Some(acc)
    else if vs[0].previous.None? then None
    else NextVisitMap(vs[1..], acc[vs[0].previous.value := vs[0]])
  }

  /** The locations met by following the successor map from `from`, for at most
      `fuel` steps. */
  function Follow(next: map<Standstill, Visit>, from: Standstill, fuel: nat): (r: seq<LocationId>)
    ensures |r| <= fuel
    ensures r != [] ==> from in next && r[0] == next[from].location
    decreases fuel
  {
    if fuel == 0 || from !in next then []
    else [next[from].location] + Follow(next, VisitRef(next[from].key), fuel - 1)
  }

  /** The route `extractRoute` yields: none when a visit is unconnected, the
      empty route when there is no domicile, and otherwise the domicile's
      location followed by the chain of successors. The walk is bounded by the
      number of visits; `Planner.ExtractRoute` proves that the source's
      unbounded walk always ends within that bound. */
  function RouteOf(domicile: Option<LocationId>, vs: seq<Visit>): (r: Option<seq<LocationId>>)
    ensures r.Some? ==> AllConnected(vs)
    ensures r.Some? && domicile.None? ==> r.value == []
    ensures r.Some? && domicile.Some? ==> 1 <= |r.value| <= |vs| + 1 && r.value[0] == domicile.value
  {
    match NextVisitMap(vs, map[])
    case None => None
    case Some(next) =>
      if domicile.None? then Some([])
      else Some([domicile.value] + Follow(next, DomicileRef, |vs|))
  }

  /** The log entry a publication adds: nothing when there is no route. */
  function Published(route: Option<seq<LocationId>>): seq<seq<LocationId>> {
    if route.Some? then [route.value] else []
  }

  // ---------------------------------------------------------------------------
  // Facts about the successor map

  lemma {:induction false} NextVisitMapAbsent(vs: seq<Visit>, acc: map<Standstill, Visit>)
    ensures NextVisitMap(vs, acc).None? <==> exists i :: 0 <= i < |vs| && vs[i].previous.None?
    decreases |vs|
  {
    if vs != [] {
      if vs[0].previous.Some? {
        NextVisitMapAbsent(vs[1..], acc[vs[0].previous.value := vs[0]]);
        if exists i :: 0 <= i < |vs| && vs[i].previous.None? {
          var i :| 0 <= i < |vs| && vs[i].previous.None?;
          assert vs[1..][i - 1].previous.None?;
        }
      }
    }
  }

  /** Every entry points at a visit (of `pool`, which holds the visits) whose
      predecessor is the entry's key, and every visit's predecessor is a key. */
  lemma {:induction false} NextVisitMapLinks(vs: seq<Visit>, acc: map<Standstill, Visit>, pool: seq<Visit>)
    requires forall k | k in acc :: acc[k].previous == Some(k) && acc[k] in pool
    requires forall i :: 0 <= i < |vs| ==> vs[i] in pool
    ensures var r := NextVisitMap(vs, acc);
      r.Some? ==>
        && acc.Keys <= r.value.Keys
        && (forall k | k in r.value :: r.value[k].previous == Some(k) && r.value[k] in pool)
        && (forall i :: 0 <= i < |vs| ==> vs[i].previous.Some? && vs[i].previous.value in r.value)
    decreases |vs|
  {
    if vs != [] && vs[0].previous.Some? {
      var acc' := acc[vs[0].previous.value := vs[0]];
      NextVisitMapLinks(vs[1..], acc', pool);
      var r := NextVisitMap(vs, acc);
      if r.Some? {
        forall i | 0 <= i < |vs| ensures vs[i].previous.Some? && vs[i].previous.value in r.value {
          if i > 0 { assert vs[i] == vs[1..][i - 1]; }
        }
      }
    }
  }

  /** The map has at most one key per visit processed. */
  lemma {:induction false} NextVisitMapSize(vs: seq<Visit>, acc: map<Standstill, Visit>)
    ensures var r := NextVisitMap(vs, acc); r.Some? ==> |r.value.Keys| <= |acc.Keys| + |vs|
    decreases |vs|
  {
    if vs != [] && vs[0].previous.Some? {
      var acc' := acc[vs[0].previous.value := vs[0]];
      assert acc'.Keys == acc.Keys + {vs[0].previous.value};
      NextVisitMapSize(vs[1..], acc');
    }
  }

  /** Last writer wins: the entry for `k` is the last visit whose predecessor is `k`. */
  lemma {:induction false} NextVisitMapLastWriter(vs: seq<Visit>, acc: map<Standstill, Visit>, i: nat, k: Standstill)
    requires i < |vs| && vs[i].previous == Some(k)
    requires forall j :: i < j < |vs| ==> vs[j].previous != Some(k)
    ensures var r := NextVisitMap(vs, acc); r.Some? ==> k in r.value && r.value[k] == vs[i]
    decreases |vs|
  {
    if vs[0].previous.Some? {
      var acc' := acc[vs[0].previous.value := vs[0]];
      if i == 0 {
        NextVisitMapKeeps(vs[1..], acc', k);
      } else {
        NextVisitMapLastWriter(vs[1..], acc', i - 1, k);
      }
    }
  }

  /** An entry no later visit overwrites survives to the end. */
  lemma {:induction false} NextVisitMapKeeps(vs: seq<Visit>, acc: map<Standstill, Visit>, k: Standstill)
    requires k in acc
    requires forall j :: 0 <= j < |vs| ==> vs[j].previous != Some(k)
    ensures var r := NextVisitMap(vs, acc); r.Some? ==> k in r.value && r.value[k] == acc[k]
    decreases |vs|
  {
    if vs != [] && vs[0].previous.Some? {
      NextVisitMapKeeps(vs[1..], acc[vs[0].previous.value := vs[0]], k);
    }
  }

  // ---------------------------------------------------------------------------
  // Properties of the extracted route

  /** No route exactly when some visit has no previous standstill; with every
      visit connected and no domicile, the empty route. */
  lemma RouteAbsentIffUnconnected(domicile: Option<LocationId>, vs: seq<Visit>)
    ensures RouteOf(domicile, vs).None? <==> exists i :: 0 <= i < |vs| && vs[i].previous.None?
    ensures AllConnected(vs) && domicile.None? ==> RouteOf(domicile, vs) == Some([])
  {
    NextVisitMapAbsent(vs, map[]);
  }

  /** The standstill the `i`-th visit of a chain points back at; for `i ==
      |order|` it is the chain's last visit. */
  function ChainLink(order: seq<Visit>, i: nat): Standstill
    requires i <= |order|
  {
    if i == 0 then DomicileRef else VisitRef(order[i - 1].key)
  }

  /** `order` is a non-branching, acyclic chain hanging off the domicile: the
      first visit points at the domicile and every other at the one before it. */
  predicate IsChain(order: seq<Visit>) {
    && DistinctKeys(order)
    && forall i :: 0 <= i < |order| ==> order[i].previous == Some(ChainLink(order, i))
  }

  /** The visit list holds exactly the visits of the chain `order`, in any order. */
  predicate ChainOf(vs: seq<Visit>, order: seq<Visit>) {
    IsChain(order) && multiset(vs) == multiset(order)
  }

  /** The visits form one chain from the domicile covering each of them once. */
  ghost predicate Chained(vs: seq<Visit>) {
    exists order :: ChainOf(vs, order)
  }

  lemma ChainLinkInjective(order: seq<Visit>, i: nat, j: nat)
    requires DistinctKeys(order)
    requires i <= |order| && j <= |order|
    requires ChainLink(order, i) == ChainLink(order, j)
    ensures i == j
  {
  }

  /** In a chain `order` covering `vs`, the successor map sends each link of the
      chain to the next visit of the chain. */
  lemma ChainSuccessors(vs: seq<Visit>, order: seq<Visit>, next: map<Standstill, Visit>)
    requires ChainOf(vs, order)
    requires NextVisitMap(vs, map[]) == Some(next)
    ensures forall i :: 0 <= i < |order| ==> ChainLink(order, i) in next && next[ChainLink(order, i)] == order[i]
  {
    NextVisitMapLinks(vs, map[], vs);
    forall i | 0 <= i < |order| ensures ChainLink(order, i) in next && next[ChainLink(order, i)] == order[i] {
      assert order[i] in multiset(vs);
      var j :| 0 <= j < |vs| && vs[j] == order[i];
      assert vs[j].previous.value in next;
      var w := next[ChainLink(order, i)];
      assert w in multiset(order);
      var i' :| 0 <= i' < |order| && order[i'] == w;
      ChainLinkInjective(order, i, i');
    }
  }

  lemma {:induction false} FollowChain(order: seq<Visit>, next: map<Standstill, Visit>, i: nat)
    requires IsChain(order) && i <= |order|
    requires forall j :: 0 <= j < |order| ==> ChainLink(order, j) in next && next[ChainLink(order, j)] == order[j]
    ensures Follow(next, ChainLink(order, i), |order| - i) == LocationsOf(order[i..])
    decreases |order| - i
  {
    if i < |order| {
      FollowChain(order, next, i + 1);
      assert order[i..] == [order[i]] + order[i + 1..];
    }
  }

  /** For a domicile plus a chain of N visits, the route has N + 1 locations: the
      domicile's first, then the visits' in chain order, whatever the order of
      the visit list. */
  lemma ChainRoute(d: LocationId, vs: seq<Visit>, order: seq<Visit>)
    requires ChainOf(vs, order)
    ensures RouteOf(Some(d), vs) == Some([d] + LocationsOf(order))
    ensures |RouteOf(Some(d), vs).value| == |vs| + 1
  {
    assert |vs| == |order| by {
      assert |vs| == |multiset(vs)| == |order|;
    }
    assert NextVisitMap(vs, map[]).Some? by {
      forall i | 0 <= i < |vs| ensures vs[i].previous.Some? {
        assert vs[i] in multiset(order);
      }
      NextVisitMapAbsent(vs, map[]);
    }
    var next := NextVisitMap(vs, map[]).value;
    assert Follow(next, DomicileRef, |order|) == LocationsOf(order) by {
      ChainSuccessors(vs, order, next);
      FollowChain(order, next, 0);
      assert order[0..] == order;
    }
  }

  /** Visit lists holding the same visits hold the same locations. */
  lemma {:induction false} LocationsOfPermutation(a: seq<Visit>, b: seq<Visit>)
    requires multiset(a) == multiset(b)
    ensures multiset(LocationsOf(a)) == multiset(LocationsOf(b))
    decreases |a|
  {
    if a == [] {
      assert |b| == |multiset(b)| == 0;
      assert b == [];
    } else {
      HeadTail(a);
      assert a[0] in multiset(b);
      var j :| 0 <= j < |b| && b[j] == a[0];
      var b' := RemoveAt(b, j);
      LocationsOfPermutation(a[1..], b');
      LocationsOfRemoveAt(b, j);
      LocationsOfCons(a);
      AddOne(multiset(LocationsOf(a)), multiset(LocationsOf(a[1..])),
             multiset(LocationsOf(b)), multiset(LocationsOf(b')), a[0].location);
    }
  }

  lemma AddOne<T>(a: multiset<T>, a': multiset<T>, b: multiset<T>, b': multiset<T>, x: T)
    requires a == multiset{x} + a' && b == b' + multiset{x} && a' == b'
    ensures a == b
  {
  }

  lemma LocationsOfCons(a: seq<Visit>)
    requires a != []
    ensures multiset(LocationsOf(a)) == multiset{a[0].location} + multiset(LocationsOf(a[1..]))
  {
    assert LocationsOf(a) == [a[0].location] + LocationsOf(a[1..]);
  }

  lemma LocationsOfRemoveAt(b: seq<Visit>, j: nat)
    requires j < |b|
    ensures multiset(LocationsOf(b)) == multiset(LocationsOf(RemoveAt(b, j))) + multiset{b[j].location}
  {
    var pre, post := b[..j], b[j + 1..];
    SplitAt(b, j);
    assert RemoveAt(b, j) == pre + post;
    LocationsOfConcat(pre + [b[j]], post);
    LocationsOfConcat(pre, [b[j]]);
    LocationsOfConcat(pre, post);
  }

  lemma HeadTail<T>(s: seq<T>)
    requires s != []
    ensures multiset(s) == multiset{s[0]} + multiset(s[1..])
  {
    assert s == [s[0]] + s[1..];
  }

  lemma SplitAt<T>(s: seq<T>, i: nat)
    requires i < |s|
    ensures s == s[..i] + [s[i]] + s[i + 1..]
  {
  }

  lemma LocationsOfConcat(a: seq<Visit>, b: seq<Visit>)
    ensures LocationsOf(a + b) == LocationsOf(a) + LocationsOf(b)
  {
    var l := LocationsOf(a + b);
    forall i | 0 <= i < |l| ensures l[i] == (LocationsOf(a) + LocationsOf(b))[i] {
      if i < |a| {
        assert (a + b)[i] == a[i];
      } else {
        assert (a + b)[i] == b[i - |a|];
      }
    }
  }

  /** The route of a domicile and a chain lists the domicile first and then
      every visit's location once: as a multiset it is the domicile's
      location plus the visits' locations. */
  lemma ChainRouteCoversVisits(d: LocationId, vs: seq<Visit>, order: seq<Visit>)
    requires ChainOf(vs, order)
    ensures var route := RouteOf(Some(d), vs);
      && route.Some? && |route.value| == |vs| + 1 && route.value[0] == d
      && multiset(route.value) == multiset{d} + multiset(LocationsOf(vs))
  {
    ChainRoute(d, vs, order);
    LocationsOfPermutation(order, vs);
  }

  /** Without visits the route is the domicile alone, or empty without one. */
  lemma RouteWithoutVisits(domicile: Option<LocationId>)
    ensures RouteOf(domicile, []) == Some(if domicile.Some? then [domicile.value] else [])
  {
    assert NextVisitMap([], map[]) == Some(map[]);
    if domicile.Some? {
      assert [domicile.value] + [] == [domicile.value];
    }
  }
}
