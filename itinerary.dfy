/**
 What counts as an itinerary: a sequence of scheduled legs from a start
 city, the first leaving no earlier than the query time, each next one
 leaving from where the previous one landed after a layover of at least
 60 minutes. This is the reference the search is proved against.
 */
module Itinerary {
  import opened Times
  import opened Schedule

  /** A flight is scheduled when it is on the outbound list of its start city. */
  predicate Scheduled(adj: Adjacency, f: Flight)
  {
    f.startCity in adj && f in adj[f.startCity]
  }

  /** Arrival, in minutes, at the end of `legs`; the query time when there are no legs yet. */
  function Arrival(t: int, legs: seq<Flight>): int
  {
    if legs == [] then TimeToMinutes(t) else TimeToMinutes(legs[|legs| - 1].arrivalTime)
  }

  /** May `f` be taken after `legs`? The first leg must not leave before the query time. */
  predicate Follows(t: int, legs: seq<Flight>, f: Flight)
  {
    if legs == [] then TimeToMinutes(f.departureTime) >= TimeToMinutes(t)
    else ValidLayover(legs[|legs| - 1].arrivalTime, f.departureTime)
  }

  /** `legs` is an itinerary from `start`, leaving no earlier than `t`, that ends in `city`. */
  predicate IsItinerary(adj: Adjacency, start: CityName, t: int, legs: seq<Flight>, city: CityName)
    decreases |legs|
  {
    if legs == [] then city == start
    else
      var f := legs[|legs| - 1];
      var prefix := legs[..|legs| - 1];
      && f.destCity == city
      && Scheduled(adj, f)
      && Follows(t, prefix, f)
      && IsItinerary(adj, start, t, prefix, f.startCity)
  }

  /** The same notion stated leg by leg: first leg, every connection, last leg. */
  ghost predicate ChainedLegs(adj: Adjacency, start: CityName, t: int, legs: seq<Flight>, city: CityName)
  {
    && (legs == [] ==> city == start)
    && (legs != [] ==>
          && legs[0].startCity == start
          && TimeToMinutes(legs[0].departureTime) >= TimeToMinutes(t)
          && legs[|legs| - 1].destCity == city)
    && (forall i :: 0 <= i < |legs| ==> Scheduled(adj, legs[i]))
    && (forall i :: 0 < i < |legs| ==>
          legs[i - 1].destCity == legs[i].startCity
          && ValidLayover(legs[i - 1].arrivalTime, legs[i].departureTime))
  }

  /** The flights stored under the ids of `path`, in order. */
  function Legs(flights: map<FlightId, Flight>, path: seq<FlightId>): seq<Flight>
    requires forall id :: id in path ==> id in flights
  {
    seq(|path|, k requires 0 <= k < |path| => flights[path[k]])
  }

  /** Every clock value involved is well formed: the query time and both times of every scheduled leg. */
  ghost predicate WellTimed(adj: Adjacency, t: int)
  {
    && WellFormedTime(t)
    && forall c, f :: c in adj && f in adj[c] ==>
         WellFormedTime(f.departureTime) && WellFormedTime(f.arrivalTime)
  }

  /** Every scheduled leg lands, in minutes, after it leaves. */
  ghost predicate ForwardLegs(adj: Adjacency)
  {
    forall c, f :: c in adj && f in adj[c] ==>
      TimeToMinutes(f.departureTime) < TimeToMinutes(f.arrivalTime)
  }

  /** No scheduled leg lands, in minutes, more than 39 minutes before it leaves. */
  ghost predicate ShortBackJumps(adj: Adjacency)
  {
    forall c, f :: c in adj && f in adj[c] ==>
      TimeToMinutes(f.arrivalTime) >= TimeToMinutes(f.departureTime) - MaxMinuteOverflow
  }

  /** `path` names stored flights that form an itinerary from `start` to `dest`. */
  ghost predicate IsTrip(adj: Adjacency, flights: map<FlightId, Flight>, start: CityName, dest: CityName, t: int, path: seq<FlightId>)
  {
    && (forall id :: id in path ==> id in flights)
    && IsItinerary(adj, start, t, Legs(flights, path), dest)
  }

  /** `path` is a trip that lands no later than any itinerary from `start` to `dest`. */
  ghost predicate EarliestTrip(adj: Adjacency, flights: map<FlightId, Flight>, start: CityName, dest: CityName, t: int, path: seq<FlightId>)
  {
    && IsTrip(adj, flights, start, dest, t, path)
    && forall legs :: IsItinerary(adj, start, t, legs, dest) ==>
         Arrival(t, Legs(flights, path)) <= Arrival(t, legs)
  }

  /** No itinerary at all leads from `start` to `dest`. */
  ghost predicate NoTrip(adj: Adjacency, start: CityName, dest: CityName, t: int)
  {
    forall legs :: !IsItinerary(adj, start, t, legs, dest)
  }

  /**
   What a search promises about its result `r`: a found path is a trip;
   from a city to itself it is the empty path; a found path to another
   city lands earliest; "no flight" means no itinerary exists. The empty
   path from a city to itself is earliest only with well-formed times.
   */
  ghost predicate SearchSpec(adj: Adjacency, flights: map<FlightId, Flight>, start: CityName, dest: CityName, t: int, r: TripResult)
  {
    && (r.Found? ==> IsTrip(adj, flights, start, dest, t, r.path))
    && (start == dest ==> r == Found([]))
    && ((start != dest || WellTimed(adj, t)) && r.Found? ==> EarliestTrip(adj, flights, start, dest, t, r.path))
    && (r.NoFlightExists? ==> NoTrip(adj, start, dest, t))
  }

  /** Appending a leg that may follow keeps an itinerary an itinerary. */
  lemma ExtendItinerary(adj: Adjacency, start: CityName, t: int, legs: seq<Flight>, city: CityName, f: Flight)
    requires IsItinerary(adj, start, t, legs, city)
    requires Scheduled(adj, f) && f.startCity == city && Follows(t, legs, f)
    ensures IsItinerary(adj, start, t, legs + [f], f.destCity)
    ensures Arrival(t, legs + [f]) == TimeToMinutes(f.arrivalTime)
  {
    assert (legs + [f])[..|legs|] == legs;
  }

  /** Looking up one more id appends its flight. */
  lemma LegsAppend(flights: map<FlightId, Flight>, path: seq<FlightId>, id: FlightId)
    requires forall x :: x in path ==> x in flights
    requires id in flights
    ensures forall x :: x in path + [id] ==> x in flights
    ensures Legs(flights, path + [id]) == Legs(flights, path) + [flights[id]]
  {
    assert forall x :: x in path + [id] ==> x in path || x == id;
  }

  /** The recursive definition and the leg-by-leg one agree, in both directions. */
  lemma ItineraryIffChained(adj: Adjacency, start: CityName, t: int, legs: seq<Flight>, city: CityName)
    ensures IsItinerary(adj, start, t, legs, city) <==> ChainedLegs(adj, start, t, legs, city)
  {
    if IsItinerary(adj, start, t, legs, city) {
      ItineraryIsChained(adj, start, t, legs, city);
    }
    if ChainedLegs(adj, start, t, legs, city) {
      ChainedIsItinerary(adj, start, t, legs, city);
    }
  }

  /** An itinerary meets the leg-by-leg conditions. */
  lemma {:induction false} ItineraryIsChained(adj: Adjacency, start: CityName, t: int, legs: seq<Flight>, city: CityName)
    requires IsItinerary(adj, start, t, legs, city)
    ensures ChainedLegs(adj, start, t, legs, city)
    decreases |legs|
  {
    if legs != [] {
      var n := |legs|;
      var f := legs[n - 1];
      var prefix := legs[..n - 1];
      ItineraryIsChained(adj, start, t, prefix, f.startCity);
      if prefix == [] {
        assert legs == [f];
      } else {
        assert legs[0] == prefix[0];
        forall i | 0 <= i < n
          ensures Scheduled(adj, legs[i])
        {
          if i < n - 1 { assert prefix[i] == legs[i]; }
        }
        forall i | 0 < i < n
          ensures legs[i - 1].destCity == legs[i].startCity
          ensures ValidLayover(legs[i - 1].arrivalTime, legs[i].departureTime)
        {
          if i < n - 1 {
            assert prefix[i - 1] == legs[i - 1] && prefix[i] == legs[i];
          } else {
            assert prefix[n - 2] == legs[i - 1];
          }
        }
      }
    }
  }

  /** Legs that meet the leg-by-leg conditions form an itinerary. */
  lemma {:induction false} ChainedIsItinerary(adj: Adjacency, start: CityName, t: int, legs: seq<Flight>, city: CityName)
    requires ChainedLegs(adj, start, t, legs, city)
    ensures IsItinerary(adj, start, t, legs, city)
    decreases |legs|
  {
    if legs != [] {
      var n := |legs|;
      var f := legs[n - 1];
      var prefix := legs[..n - 1];
      if prefix != [] {
        assert legs[0] == prefix[0];
        assert forall i :: 0 <= i < n - 1 ==> prefix[i] == legs[i];
        assert legs[n - 2].destCity == legs[n - 1].startCity;
        assert ValidLayover(legs[n - 2].arrivalTime, legs[n - 1].departureTime);
      }
      assert ChainedLegs(adj, start, t, prefix, f.startCity);
      ChainedIsItinerary(adj, start, t, prefix, f.startCity);
    }
  }

  /** When legs move forward in time, no itinerary lands before the query time. */
  lemma {:induction false} ArrivalNotBeforeQuery(adj: Adjacency, start: CityName, t: int, legs: seq<Flight>, city: CityName)
    requires ForwardLegs(adj)
    requires IsItinerary(adj, start, t, legs, city)
    ensures Arrival(t, legs) >= TimeToMinutes(t)
    decreases |legs|
  {
    if legs != [] {
      var f := legs[|legs| - 1];
      var prefix := legs[..|legs| - 1];
      ArrivalNotBeforeQuery(adj, start, t, prefix, f.startCity);
      assert TimeToMinutes(f.departureTime) >= Arrival(t, prefix);
      assert TimeToMinutes(f.departureTime) < TimeToMinutes(f.arrivalTime);
    }
  }

  /** Under the store invariant and well-formed times, every scheduled leg moves forward in minutes. */
  lemma WellTimedLegsMoveForward(cities: set<CityName>, flights: map<FlightId, Flight>, adj: Adjacency, t: int)
    requires StoreInvariant(cities, flights, adj)
    requires WellTimed(adj, t)
    ensures ForwardLegs(adj)
  {
    forall c, f | c in adj && f in adj[c]
      ensures TimeToMinutes(f.departureTime) < TimeToMinutes(f.arrivalTime)
    {
      MinutesOrderPreserving(f.departureTime, f.arrivalTime);
    }
  }

  /** Every leg the store accepts departs before it arrives in raw HHMM, so it jumps back at most 39 minutes. */
  lemma StoredLegsJumpBackLittle(cities: set<CityName>, flights: map<FlightId, Flight>, adj: Adjacency)
    requires StoreInvariant(cities, flights, adj)
    ensures ShortBackJumps(adj)
  {
    forall c, f | c in adj && f in adj[c]
      ensures TimeToMinutes(f.arrivalTime) >= TimeToMinutes(f.departureTime) - MaxMinuteOverflow
    {
      MinuteOverflowBound(f.departureTime, f.arrivalTime);
    }
  }

  /**
   With short back jumps, an itinerary with at least one leg lands no more
   than 39 minutes before the query time: only its first leg can land
   before the previous time, since every later one waits 60 minutes.
   */
  lemma {:induction false} ArrivalLowerBound(adj: Adjacency, start: CityName, t: int, legs: seq<Flight>, city: CityName)
    requires ShortBackJumps(adj)
    requires IsItinerary(adj, start, t, legs, city) && legs != []
    ensures Arrival(t, legs) >= TimeToMinutes(t) - MaxMinuteOverflow
    decreases |legs|
  {
    var f := legs[|legs| - 1];
    var prefix := legs[..|legs| - 1];
    assert TimeToMinutes(f.arrivalTime) >= TimeToMinutes(f.departureTime) - MaxMinuteOverflow;
    if prefix != [] {
      ArrivalLowerBound(adj, start, t, prefix, f.startCity);
      assert TimeToMinutes(f.departureTime) >= Arrival(t, prefix) + MinLayover;
    }
  }

  /** A city to itself, without well-formed times: a loop leaving at 1:99 lands before the empty path. */
  lemma LoopLandsBeforeQuery()
    ensures var loop := Flight("L", "A", "A", 199, 200);
      && IsItinerary(map["A" := [loop]], "A", 199, [loop], "A")
      && Arrival(199, [loop]) < Arrival(199, [])
  {
    var loop := Flight("L", "A", "A", 199, 200);
    assert [loop][..0] == [];
  }

  /** With well-formed times, staying put is an earliest itinerary from a city to itself. */
  lemma EmptyPathEarliest(cities: set<CityName>, flights: map<FlightId, Flight>, adj: Adjacency, start: CityName, t: int)
    requires StoreInvariant(cities, flights, adj) && WellTimed(adj, t)
    ensures forall legs :: IsItinerary(adj, start, t, legs, start) ==> Arrival(t, []) <= Arrival(t, legs)
  {
    WellTimedLegsMoveForward(cities, flights, adj, t);
    forall legs | IsItinerary(adj, start, t, legs, start)
      ensures Arrival(t, []) <= Arrival(t, legs)
    {
      ArrivalNotBeforeQuery(adj, start, t, legs, start);
    }
  }
}
