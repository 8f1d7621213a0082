/**
 The trip planner: a store of cities, flights by id and per-city outbound
 lists, and the earliest-arrival search over it.
 */
module Planner {
  import opened Times
  import opened Schedule
  import opened Itinerary
  import opened Frontier
  import opened Search

  class TripPlanner {
    var cities: set<CityName>
    var flights: map<FlightId, Flight>
    var adjList: Adjacency

    ghost predicate Valid()
      reads this
    {
      StoreInvariant(cities, flights, adjList)
    }

    constructor ()
      ensures Valid()
      ensures cities == {} && flights == map[] && adjList == map[]
    {
      cities := {};
      flights := map[];
      adjList := map[];
    }

    /** Registers a city; registering it again empties its outbound list but keeps its flights stored. */
    method AddCity(cityName: CityName)
      requires Valid()
      modifies this
      ensures Valid()
      ensures cities == old(cities) + {cityName}
      ensures adjList == old(adjList)[cityName := []]
      ensures flights == old(flights)
    {
      cities := cities + {cityName};
      adjList := adjList[cityName := []];
    }

    /**
     Registers a flight. The checks come in the source's order: both cities
     registered, departure before arrival in raw HHMM, id not yet taken.
     A rejected flight changes nothing; an accepted one is stored under its
     id and appended to its start city's outbound list.
     */
    method AddFlight(flightId: FlightId, startCity: CityName, destCity: CityName, departureTime: int, arrivalTime: int)
      returns (r: Outcome)
      requires Valid()
      modifies this
      ensures Valid()
      ensures r.Pass? <==>
        startCity in old(cities) && destCity in old(cities) && departureTime < arrivalTime && flightId !in old(flights)
      ensures startCity !in old(cities) || destCity !in old(cities) ==> r == Fail(CityNotInDatabase)
      ensures startCity in old(cities) && destCity in old(cities) && departureTime >= arrivalTime ==> r == Fail(InvalidTimes)
      ensures startCity in old(cities) && destCity in old(cities) && departureTime < arrivalTime && flightId in old(flights) ==>
        r == Fail(FlightIdExists)
      ensures r.Fail? ==> cities == old(cities) && flights == old(flights) && adjList == old(adjList)
      ensures r.Pass? ==>
        var f := Flight(flightId, startCity, destCity, departureTime, arrivalTime);
        && cities == old(cities)
        && flights == old(flights)[flightId := f]
        && adjList == old(adjList)[startCity := old(adjList)[startCity] + [f]]
    {
      if startCity !in cities || destCity !in cities {
        return Fail(CityNotInDatabase);
      }
      if departureTime >= arrivalTime {
        return Fail(InvalidTimes);
      }
      if flightId in flights {
        return Fail(FlightIdExists);
      }
      var flight := Flight(flightId, startCity, destCity, departureTime, arrivalTime);
      flights := flights[flightId := flight];
      adjList := adjList[startCity := adjList[startCity] + [flight]];
      r := Pass;
    }

    /**
     Searches for an itinerary, after checking that both cities are
     registered. A found path is a trip; from a city to itself it is the
     empty path; to another city it lands earliest; "no flight" means no
     itinerary exists.
     */
    method FindTrip(startCity: CityName, destCity: CityName, departureTime: int) returns (r: Result<TripResult>)
      requires Valid()
      ensures r.Err? <==> startCity !in cities || destCity !in cities
      ensures r.Err? ==> r.error == CityNotInDatabase
      ensures r.Ok? ==> SearchSpec(adjList, flights, startCity, destCity, departureTime, r.value)
    {
      if startCity !in cities || destCity !in cities {
        return Err(CityNotInDatabase);
      }
      var trip := Dijkstra(startCity, destCity, departureTime);
      r := Ok(trip);
    }

    /**
     Earliest-arrival search: a frontier of (arrival minutes, city, path)
     entries and a set of visited cities, each city expanded at most once.
     The loop ends because every pass either visits a new registered city
     or shrinks the frontier.
     */
    method Dijkstra(startCity: CityName, destCity: CityName, departureTime: int) returns (r: TripResult)
      requires Valid()
      requires startCity in cities || startCity == destCity
      ensures SearchSpec(adjList, flights, startCity, destCity, departureTime, r)
    {
      ghost var adj, t := adjList, departureTime;
      StoredLegsJumpBackLittle(cities, flights, adj);
      var pq := [Entry(TimeToMinutes(departureTime), startCity, [])];
      var visited: set<CityName> := {};
      ghost var dist: map<CityName, int> := map[];
      SearchStarts(adj, flights, cities, startCity, destCity, t);
      while pq != []
        invariant SearchInvariant(adj, flights, cities, startCity, destCity, t, visited, dist, pq)
        decreases cities - visited, |pq|
      {
        var i := MinIndex(pq);
        var current := pq[i];
        ghost var before := pq;
        pq := Remove(pq, i);
        if current.city in visited {
          DiscardKeeps(adj, flights, cities, startCity, destCity, t, visited, dist, before, i);
          continue;
        }
        VisitPrepares(adj, flights, cities, startCity, destCity, t, visited, dist, before, i);
        ghost var visitedBefore, distBefore := visited, dist;
        visited := visited + {current.city};
        dist := dist[current.city := current.time];
        if current.city == destCity {
          FoundMeetsSpec(cities, flights, adj, startCity, destCity, t, current);
          return Found(current.path);
        }
        pq := PushConnections(startCity, destCity, departureTime, current, pq, visited, dist);
        VisitKeeps(adj, flights, cities, startCity, destCity, t, visitedBefore, distBefore, pq, current.city, current.time);
      }
      ExhaustedMeetsSpec(adj, flights, startCity, t, visited, dist, destCity);
      return NoFlightExists;
    }

    /**
     The inner loop of the search: for every outbound flight of the city
     just expanded, in list order, push an entry for its destination when
     it leaves no earlier than the entry's time and, after a first leg,
     respects the minimum layover after the path's last flight.
     */
    method PushConnections(startCity: CityName, destCity: CityName, departureTime: int, current: Entry,
                           frontier: seq<Entry>, visited: set<CityName>, ghost dist: map<CityName, int>)
      returns (pq: seq<Entry>)
      requires Valid()
      requires current.city in cities && current.city in dist && dist[current.city] == current.time
      requires current.city == startCity ==> current.path == []
      requires EntryOk(adjList, flights, startCity, departureTime, current)
      requires forall e :: e in frontier ==> EntryOk(adjList, flights, startCity, departureTime, e)
      requires forall e :: e in frontier ==> e.city in cities || e.city == destCity
      requires RelaxedExcept(adjList, startCity, departureTime, visited, dist, frontier, current.city, [])
      ensures PushedInOrder(flights, current, adjList[current.city], frontier, pq)
      ensures forall e :: e in frontier ==> e in pq
      ensures forall e :: e in pq ==> EntryOk(adjList, flights, startCity, departureTime, e)
      ensures forall e :: e in pq ==> e.city in cities || e.city == destCity
      ensures Relaxed(adjList, startCity, departureTime, visited, dist, pq)
    {
      ghost var adj, t := adjList, departureTime;
      pq := frontier;
      var outbound := adjList[current.city];
      for j := 0 to |outbound|
        invariant pq == frontier + Pushes(flights, current, outbound[..j])
        invariant forall e :: e in pq ==> EntryOk(adj, flights, startCity, t, e)
        invariant forall e :: e in pq ==> e.city in cities || e.city == destCity
        invariant RelaxedExcept(adj, startCity, t, visited, dist, pq, current.city, outbound[..j])
      {
        var flight := outbound[j];
        PushTest(adj, flights, startCity, t, dist, current, flight);
        var next := Entry(TimeToMinutes(flight.arrivalTime), flight.destCity, current.path + [flight.flightId]);
        var pushed := false;
        if TimeToMinutes(flight.departureTime) >= current.time {
          if current.path == [] {
            pushed := true;
          } else {
            var lastFlight := current.path[|current.path| - 1];
            var valid := ValidLayover(flights[lastFlight].arrivalTime, flight.departureTime);
            if valid {
              pushed := true;
            }
          }
        }
        assert outbound[..j + 1] == outbound[..j] + [flight];
        assert outbound[..j + 1][..j] == outbound[..j];
        assert pushed == PassesPushTest(flights, current, flight);
        RelaxedExceptStep(adj, startCity, t, visited, dist, pq, current.city, outbound[..j], flight, next, pushed);
        if pushed {
          EntryExtend(adj, flights, startCity, t, current, flight);
          pq := pq + [next];
        }
      }
      assert outbound[..|outbound|] == outbound;
      RelaxedExceptDone(adj, startCity, t, visited, dist, pq, current.city);
    }
  }
}
