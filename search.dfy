/**
 The invariants of the earliest-arrival search and the lemmas that carry
 them from one step of the search to the next.

 `dist` maps each visited (expanded) city to the time at which it was
 expanded. A leg `f` out of a visited city `v` is released when the
 expansion of `v` must have pushed it: from the start city when it leaves
 no earlier than the query time, from any other city when it leaves at
 least 60 minutes after `dist[v]`.
 */
module Search {
  import opened Times
  import opened Schedule
  import opened Itinerary
  import opened Frontier

  /** A frontier entry stands for an itinerary to its city that lands at its time. */
  ghost predicate EntryOk(adj: Adjacency, flights: map<FlightId, Flight>, start: CityName, t: int, e: Entry)
  {
    && (forall id :: id in e.path ==> id in flights)
    && IsItinerary(adj, start, t, Legs(flights, e.path), e.city)
    && e.time == Arrival(t, Legs(flights, e.path))
  }

  ghost predicate Released(start: CityName, t: int, dist: map<CityName, int>, v: CityName, f: Flight)
  {
    && v in dist
    && if v == start then TimeToMinutes(f.departureTime) >= TimeToMinutes(t)
       else TimeToMinutes(f.departureTime) >= dist[v] + MinLayover
  }

  /** Some entry of the frontier reaches `c` no later than `a`. */
  ghost predicate Covered(pq: seq<Entry>, c: CityName, a: int)
  {
    exists e :: e in pq && e.city == c && e.time <= a
  }

  /** Every released leg has led to a visited city or to a frontier entry no later than its arrival. */
  ghost predicate Relaxed(adj: Adjacency, start: CityName, t: int, visited: set<CityName>, dist: map<CityName, int>, pq: seq<Entry>)
  {
    forall v, f :: v in adj && f in adj[v] && Released(start, t, dist, v, f) ==>
      f.destCity in visited || Covered(pq, f.destCity, TimeToMinutes(f.arrivalTime))
  }

  /** `Relaxed`, except that of the legs out of `u` only those in `done` are accounted for. */
  ghost predicate RelaxedExcept(adj: Adjacency, start: CityName, t: int, visited: set<CityName>, dist: map<CityName, int>, pq: seq<Entry>, u: CityName, done: seq<Flight>)
  {
    forall v, f :: v in adj && f in adj[v] && Released(start, t, dist, v, f) && (v == u ==> f in done) ==>
      f.destCity in visited || Covered(pq, f.destCity, TimeToMinutes(f.arrivalTime))
  }

  /**
   Every visited city other than the start was expanded at the earliest
   time any itinerary reaches it. (An itinerary can come back to the start
   before the query time, by the minute overflow of its first leg.)
   */
  ghost predicate Finalized(adj: Adjacency, start: CityName, t: int, dist: map<CityName, int>)
  {
    forall v, legs :: v in dist && v != start && IsItinerary(adj, start, t, legs, v) ==> dist[v] <= Arrival(t, legs)
  }

  /**
   The state of the search loop between two pops: every visited city is
   registered and expanded, the destination is not yet visited, the start
   city is expanded first, every frontier entry is a correct itinerary to a
   registered city or the destination, no released leg is lost, and every
   expansion time other than the start's is earliest.
   */
  ghost predicate SearchInvariant(adj: Adjacency, flights: map<FlightId, Flight>, cities: set<CityName>, start: CityName, dest: CityName, t: int,
                                  visited: set<CityName>, dist: map<CityName, int>, pq: seq<Entry>)
  {
    && dist.Keys == visited && visited <= cities
    && dest !in visited
    && (visited == {} ==> pq == [Entry(TimeToMinutes(t), start, [])])
    && (visited != {} ==> start in visited)
    && (forall e :: e in pq ==> EntryOk(adj, flights, start, t, e))
    && (forall e :: e in pq ==> e.city in cities || e.city == dest)
    && Relaxed(adj, start, t, visited, dist, pq)
    && Finalized(adj, start, t, dist)
  }

  /** The search starts from the single entry for the start city at the query time. */
  lemma SearchStarts(adj: Adjacency, flights: map<FlightId, Flight>, cities: set<CityName>, start: CityName, dest: CityName, t: int)
    requires start in cities || start == dest
    ensures SearchInvariant(adj, flights, cities, start, dest, t, {}, map[], [Entry(TimeToMinutes(t), start, [])])
  {
    assert Legs(flights, []) == [];
  }

  /** Popping an entry of a visited city and dropping it keeps the loop state. */
  lemma DiscardKeeps(adj: Adjacency, flights: map<FlightId, Flight>, cities: set<CityName>, start: CityName, dest: CityName, t: int,
                     visited: set<CityName>, dist: map<CityName, int>, pq: seq<Entry>, i: nat)
    requires SearchInvariant(adj, flights, cities, start, dest, t, visited, dist, pq)
    requires i < |pq| && pq[i].city in visited
    ensures SearchInvariant(adj, flights, cities, start, dest, t, visited, dist, Remove(pq, i))
  {
    RelaxedAfterDiscard(adj, start, t, visited, dist, pq, i);
  }

  /**
   Popping a smallest entry `e` of an unvisited city: its time is earliest
   unless it is the start, the start's entry has the empty path, and after
   visiting it only its own outbound legs remain to be accounted for.
   */
  lemma VisitPrepares(adj: Adjacency, flights: map<FlightId, Flight>, cities: set<CityName>, start: CityName, dest: CityName, t: int,
                      visited: set<CityName>, dist: map<CityName, int>, pq: seq<Entry>, i: nat)
    requires ShortBackJumps(adj)
    requires SearchInvariant(adj, flights, cities, start, dest, t, visited, dist, pq)
    requires i < |pq| && (forall j :: 0 <= j < |pq| ==> pq[i].time <= pq[j].time) && pq[i].city !in visited
    ensures var e := pq[i];
      && EntryOk(adj, flights, start, t, e) && (e.city in cities || e.city == dest)
      && (e.city == start ==> e.path == [])
      && (e.city != start ==> forall legs :: IsItinerary(adj, start, t, legs, e.city) ==> e.time <= Arrival(t, legs))
      && Finalized(adj, start, t, dist[e.city := e.time])
      && (forall x :: x in Remove(pq, i) ==> EntryOk(adj, flights, start, t, x) && (x.city in cities || x.city == dest))
      && RelaxedExcept(adj, start, t, visited + {e.city}, dist[e.city := e.time], Remove(pq, i), e.city, [])
  {
    var e := pq[i];
    assert e in pq;
    FinalizePopped(adj, start, t, visited, dist, pq, e);
    RelaxedAfterVisit(adj, start, t, visited, dist, pq, i);
  }

  /** After the expanded city's legs are all pushed, the loop state holds again with the city visited. */
  lemma VisitKeeps(adj: Adjacency, flights: map<FlightId, Flight>, cities: set<CityName>, start: CityName, dest: CityName, t: int,
                   visited: set<CityName>, dist: map<CityName, int>, pq: seq<Entry>, c: CityName, time: int)
    requires dist.Keys == visited && visited <= cities && dest !in visited
    requires visited == {} ==> c == start
    requires c in cities && c != dest
    requires Finalized(adj, start, t, dist[c := time])
    requires forall e :: e in pq ==> EntryOk(adj, flights, start, t, e) && (e.city in cities || e.city == dest)
    requires visited != {} ==> start in visited
    requires Relaxed(adj, start, t, visited + {c}, dist[c := time], pq)
    ensures SearchInvariant(adj, flights, cities, start, dest, t, visited + {c}, dist[c := time], pq)
  {
  }

  /** The last leg of any itinerary through a visited city is released there. */
  lemma ReleasedLeg(adj: Adjacency, start: CityName, t: int, dist: map<CityName, int>, v: CityName, prefix: seq<Flight>, f: Flight)
    requires ShortBackJumps(adj) && Finalized(adj, start, t, dist)
    requires v in dist && IsItinerary(adj, start, t, prefix, v) && Follows(t, prefix, f)
    ensures Released(start, t, dist, v, f)
  {
    if prefix != [] {
      ArrivalLowerBound(adj, start, t, prefix, v);
      assert TimeToMinutes(f.departureTime) >= Arrival(t, prefix) + MinLayover;
    }
  }

  /**
   The core of Dijkstra's argument: while the start city is visited, no
   itinerary reaches an unvisited city before the smallest frontier time.
   */
  lemma {:induction false} UnvisitedNotEarlier(adj: Adjacency, start: CityName, t: int, visited: set<CityName>, dist: map<CityName, int>, pq: seq<Entry>, e: Entry, legs: seq<Flight>, c: CityName)
    requires ShortBackJumps(adj) && Finalized(adj, start, t, dist) && Relaxed(adj, start, t, visited, dist, pq)
    requires dist.Keys == visited && start in visited
    requires e in pq && forall x :: x in pq ==> e.time <= x.time
    requires c !in visited && IsItinerary(adj, start, t, legs, c)
    ensures e.time <= Arrival(t, legs)
    decreases |legs|
  {
    assert legs != [];
    var f := legs[|legs| - 1];
    var prefix := legs[..|legs| - 1];
    if f.startCity in visited {
      ReleasedLeg(adj, start, t, dist, f.startCity, prefix, f);
      assert Covered(pq, c, TimeToMinutes(f.arrivalTime));
      var w :| w in pq && w.city == c && w.time <= TimeToMinutes(f.arrivalTime);
      assert e.time <= w.time;
    } else {
      UnvisitedNotEarlier(adj, start, t, visited, dist, pq, e, prefix, f.startCity);
      assert TimeToMinutes(f.departureTime) >= Arrival(t, prefix) + MinLayover;
      assert TimeToMinutes(f.arrivalTime) >= TimeToMinutes(f.departureTime) - MaxMinuteOverflow;
    }
  }

  /** Expanding a smallest-time entry of an unvisited city keeps every expansion time earliest. */
  lemma FinalizePopped(adj: Adjacency, start: CityName, t: int, visited: set<CityName>, dist: map<CityName, int>, pq: seq<Entry>, e: Entry)
    requires ShortBackJumps(adj) && Finalized(adj, start, t, dist) && Relaxed(adj, start, t, visited, dist, pq)
    requires dist.Keys == visited
    requires visited == {} ==> e.city == start
    requires visited != {} ==> start in visited
    requires e in pq && (forall x :: x in pq ==> e.time <= x.time) && e.city !in visited
    ensures Finalized(adj, start, t, dist[e.city := e.time])
    ensures e.city != start ==> forall legs :: IsItinerary(adj, start, t, legs, e.city) ==> e.time <= Arrival(t, legs)
  {
    if e.city != start {
      forall legs | IsItinerary(adj, start, t, legs, e.city)
        ensures e.time <= Arrival(t, legs)
      {
        UnvisitedNotEarlier(adj, start, t, visited, dist, pq, e, legs, e.city);
      }
    }
  }

  /** Once the frontier is empty, every city any itinerary reaches has been visited. */
  lemma {:induction false} ExhaustedReachesOnlyVisited(adj: Adjacency, start: CityName, t: int, visited: set<CityName>, dist: map<CityName, int>, legs: seq<Flight>, c: CityName)
    requires ShortBackJumps(adj) && Finalized(adj, start, t, dist) && Relaxed(adj, start, t, visited, dist, [])
    requires dist.Keys == visited && start in visited
    requires IsItinerary(adj, start, t, legs, c)
    ensures c in visited
    decreases |legs|
  {
    if legs != [] {
      var f := legs[|legs| - 1];
      var prefix := legs[..|legs| - 1];
      ExhaustedReachesOnlyVisited(adj, start, t, visited, dist, prefix, f.startCity);
      ReleasedLeg(adj, start, t, dist, f.startCity, prefix, f);
      assert !Covered([], c, TimeToMinutes(f.arrivalTime));
    }
  }

  /** An empty frontier with the destination unvisited means no itinerary reaches it. */
  lemma ExhaustedMeetsSpec(adj: Adjacency, flights: map<FlightId, Flight>, start: CityName, t: int, visited: set<CityName>, dist: map<CityName, int>, dest: CityName)
    requires ShortBackJumps(adj) && Finalized(adj, start, t, dist) && Relaxed(adj, start, t, visited, dist, [])
    requires dist.Keys == visited && start in visited && dest !in visited
    ensures SearchSpec(adj, flights, start, dest, t, NoFlightExists)
  {
    forall legs | IsItinerary(adj, start, t, legs, dest)
      ensures false
    {
      ExhaustedReachesOnlyVisited(adj, start, t, visited, dist, legs, dest);
    }
  }

  /**
   Returning the path of the destination's entry when it is first popped
   meets the search contract: the entry is an itinerary, it is earliest
   for another city, and from the start city to itself it is the empty path.
   */
  lemma FoundMeetsSpec(cities: set<CityName>, flights: map<FlightId, Flight>, adj: Adjacency, start: CityName, dest: CityName, t: int, e: Entry)
    requires StoreInvariant(cities, flights, adj)
    requires EntryOk(adj, flights, start, t, e) && e.city == dest
    requires start == dest ==> e.path == []
    requires start != dest ==> forall legs :: IsItinerary(adj, start, t, legs, dest) ==> e.time <= Arrival(t, legs)
    ensures SearchSpec(adj, flights, start, dest, t, Found(e.path))
  {
    if start == dest && WellTimed(adj, t) {
      EmptyPathEarliest(cities, flights, adj, start, t);
      assert Legs(flights, e.path) == [];
    }
  }

  /** Taking an entry out keeps a city covered unless the entry was the one reaching it. */
  lemma CoveredAfterRemove(pq: seq<Entry>, i: nat, c: CityName, a: int)
    requires i < |pq| && Covered(pq, c, a)
    ensures Covered(Remove(pq, i), c, a) || pq[i].city == c
  {
    var w :| w in pq && w.city == c && w.time <= a;
    if w != pq[i] {
      assert w in Remove(pq, i);
    }
  }

  /** Pushing an entry keeps every city covered. */
  lemma CoveredAfterPush(pq: seq<Entry>, x: Entry)
    ensures forall c, a :: Covered(pq, c, a) ==> Covered(pq + [x], c, a)
  {
    forall c, a | Covered(pq, c, a) ensures Covered(pq + [x], c, a) {
      var w :| w in pq && w.city == c && w.time <= a;
      assert w in pq + [x];
    }
  }

  /** Popping an entry of a visited city keeps the frontier relaxed. */
  lemma RelaxedAfterDiscard(adj: Adjacency, start: CityName, t: int, visited: set<CityName>, dist: map<CityName, int>, pq: seq<Entry>, i: nat)
    requires i < |pq| && pq[i].city in visited
    requires Relaxed(adj, start, t, visited, dist, pq)
    ensures Relaxed(adj, start, t, visited, dist, Remove(pq, i))
  {
    forall v, f | v in adj && f in adj[v] && Released(start, t, dist, v, f) && f.destCity !in visited
      ensures Covered(Remove(pq, i), f.destCity, TimeToMinutes(f.arrivalTime))
    {
      CoveredAfterRemove(pq, i, f.destCity, TimeToMinutes(f.arrivalTime));
    }
  }

  /** Popping and visiting a new city leaves only that city's own legs to account for. */
  lemma RelaxedAfterVisit(adj: Adjacency, start: CityName, t: int, visited: set<CityName>, dist: map<CityName, int>, pq: seq<Entry>, i: nat)
    requires i < |pq| && pq[i].city !in dist
    requires Relaxed(adj, start, t, visited, dist, pq)
    ensures RelaxedExcept(adj, start, t, visited + {pq[i].city}, dist[pq[i].city := pq[i].time], Remove(pq, i), pq[i].city, [])
  {
    var c := pq[i].city;
    var dist' := dist[c := pq[i].time];
    forall v, f | v in adj && f in adj[v] && Released(start, t, dist', v, f) && (v == c ==> f in []) && f.destCity !in visited + {c}
      ensures Covered(Remove(pq, i), f.destCity, TimeToMinutes(f.arrivalTime))
    {
      assert Released(start, t, dist, v, f);
      CoveredAfterRemove(pq, i, f.destCity, TimeToMinutes(f.arrivalTime));
    }
  }

  /** Accounting for one more leg out of the city being expanded. */
  lemma RelaxedExceptStep(adj: Adjacency, start: CityName, t: int, visited: set<CityName>, dist: map<CityName, int>, pq: seq<Entry>, u: CityName, done: seq<Flight>, f: Flight, x: Entry, pushed: bool)
    requires RelaxedExcept(adj, start, t, visited, dist, pq, u, done)
    requires pushed ==> x.city == f.destCity && x.time == TimeToMinutes(f.arrivalTime)
    requires Released(start, t, dist, u, f) ==> pushed
    ensures RelaxedExcept(adj, start, t, visited, dist, if pushed then pq + [x] else pq, u, done + [f])
  {
    var pq' := if pushed then pq + [x] else pq;
    if pushed {
      CoveredAfterPush(pq, x);
      assert x in pq';
    }
    forall v, g | v in adj && g in adj[v] && Released(start, t, dist, v, g) && (v == u ==> g in done + [f]) && g.destCity !in visited
      ensures Covered(pq', g.destCity, TimeToMinutes(g.arrivalTime))
    {
      if v == u && g !in done {
        assert g == f;
      }
    }
  }

  /** Once every leg out of `u` is accounted for, the frontier is relaxed. */
  lemma RelaxedExceptDone(adj: Adjacency, start: CityName, t: int, visited: set<CityName>, dist: map<CityName, int>, pq: seq<Entry>, u: CityName)
    requires u in adj && RelaxedExcept(adj, start, t, visited, dist, pq, u, adj[u])
    ensures Relaxed(adj, start, t, visited, dist, pq)
  {
  }

  /**
   The push test on a leg out of the city of entry `e`: it leaves no
   earlier than the entry's time and, after a first leg, respects the
   minimum layover after the flight stored under the path's last id.
   */
  function PassesPushTest(flights: map<FlightId, Flight>, e: Entry, f: Flight): bool
    requires e.path != [] ==> e.path[|e.path| - 1] in flights
  {
    && TimeToMinutes(f.departureTime) >= e.time
    && (e.path == [] || ValidLayover(flights[e.path[|e.path| - 1]].arrivalTime, f.departureTime))
  }

  /** The entries pushed when the legs of `outbound` are tried in order from entry `e`. */
  function Pushes(flights: map<FlightId, Flight>, e: Entry, outbound: seq<Flight>): seq<Entry>
    requires e.path != [] ==> e.path[|e.path| - 1] in flights
  {
    if outbound == [] then []
    else
      var f := outbound[|outbound| - 1];
      Pushes(flights, e, outbound[..|outbound| - 1])
        + if PassesPushTest(flights, e, f) then [Entry(TimeToMinutes(f.arrivalTime), f.destCity, e.path + [f.flightId])] else []
  }

  /** `pq` is `frontier` followed by the entries pushed from `e` over `outbound`, in order. */
  ghost predicate PushedInOrder(flights: map<FlightId, Flight>, e: Entry, outbound: seq<Flight>, frontier: seq<Entry>, pq: seq<Entry>)
    requires e.path != [] ==> e.path[|e.path| - 1] in flights
  {
    pq == frontier + Pushes(flights, e, outbound)
  }

  /**
   The source's push test on the expanded entry `e` is the release rule,
   and a leg that passes it may follow the entry's itinerary.
   */
  lemma PushTest(adj: Adjacency, flights: map<FlightId, Flight>, start: CityName, t: int, dist: map<CityName, int>, e: Entry, f: Flight)
    requires EntryOk(adj, flights, start, t, e)
    requires e.city in dist && dist[e.city] == e.time
    requires e.city == start ==> e.path == []
    ensures PassesPushTest(flights, e, f) <==> Released(start, t, dist, e.city, f)
    ensures PassesPushTest(flights, e, f) ==> Follows(t, Legs(flights, e.path), f)
  {
    var legs := Legs(flights, e.path);
    if e.path != [] {
      assert legs[|legs| - 1] == flights[e.path[|e.path| - 1]];
    }
  }

  /** Extending an entry's path by a leg that may follow gives an entry for the leg's destination. */
  lemma EntryExtend(adj: Adjacency, flights: map<FlightId, Flight>, start: CityName, t: int, e: Entry, f: Flight)
    requires EntryOk(adj, flights, start, t, e)
    requires Scheduled(adj, f) && f.startCity == e.city && Follows(t, Legs(flights, e.path), f)
    requires f.flightId in flights && flights[f.flightId] == f
    ensures EntryOk(adj, flights, start, t, Entry(TimeToMinutes(f.arrivalTime), f.destCity, e.path + [f.flightId]))
  {
    LegsAppend(flights, e.path, f.flightId);
    ExtendItinerary(adj, start, t, Legs(flights, e.path), e.city, f);
  }
}
