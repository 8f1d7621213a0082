/**
 The planner's sample schedule: six cities A to F and six flights, and the
 query from A to E leaving at 01:00, whose answer is "J1,J3,J7,J6". The
 schedule is given as the outbound lists the sample registrations produce.
 */
module Demo {
  import opened Times
  import opened Schedule
  import opened Itinerary

  const J1 := Flight("J1", "A", "B", 100, 200)
  const J2 := Flight("J2", "B", "C", 350, 430)
  const J3 := Flight("J3", "B", "D", 350, 530)
  const J4 := Flight("J4", "C", "E", 700, 1100)
  const J6 := Flight("J6", "F", "E", 900, 1000)
  const J7 := Flight("J7", "D", "F", 700, 800)

  /** The outbound lists after the sample registrations. */
  function DemoAdjacency(): Adjacency
  {
    map["A" := [J1], "B" := [J2, J3], "C" := [J4], "D" := [J7], "E" := [], "F" := [J6]]
  }

  /** The cities the sample registers. */
  const DemoCities: set<CityName> := {"A", "B", "C", "D", "E", "F"}

  /** The flight dictionary after the sample registrations. */
  function DemoFlights(): map<FlightId, Flight>
  {
    map["J1" := J1, "J2" := J2, "J3" := J3, "J4" := J4, "J6" := J6, "J7" := J7]
  }

  /** The sample's cities, flights and outbound lists form a valid store. */
  lemma DemoStoreValid()
    ensures StoreInvariant(DemoCities, DemoFlights(), DemoAdjacency())
  {
    DemoFlightsValid();
    DemoListsValid();
  }

  /** Each sample flight is filed under its id, joins two sample cities and departs before it arrives. */
  lemma DemoFlightsValid()
    ensures FiledById(DemoFlights())
    ensures forall id :: id in DemoFlights() ==>
      && DemoFlights()[id].startCity in DemoCities
      && DemoFlights()[id].destCity in DemoCities
      && DemoFlights()[id].departureTime < DemoFlights()[id].arrivalTime
  {
    var flights := DemoFlights();
    forall id | id in flights
      ensures flights[id].flightId == id
      ensures flights[id].startCity in DemoCities && flights[id].destCity in DemoCities
      ensures flights[id].departureTime < flights[id].arrivalTime
    {
      assert id in {"J1", "J2", "J3", "J4", "J6", "J7"};
    }
  }

  /** Each sample outbound list holds stored flights leaving from its city. */
  lemma DemoListsValid()
    ensures DemoAdjacency().Keys == DemoCities
    ensures forall c, f :: c in DemoAdjacency() && f in DemoAdjacency()[c] ==>
      f.startCity == c && f.flightId in DemoFlights() && DemoFlights()[f.flightId] == f
  {
    forall c: CityName, f: Flight | c in DemoAdjacency() && f in DemoAdjacency()[c]
      ensures f.startCity == c && f.flightId in DemoFlights() && DemoFlights()[f.flightId] == f
    {
      DemoListedFlight(c, f);
    }
  }

  /** A flight on a sample outbound list is one of the six sample flights, leaving from that list's city. */
  lemma DemoListedFlight(c: CityName, f: Flight)
    requires c in DemoAdjacency() && f in DemoAdjacency()[c]
    ensures f.startCity == c && f.flightId in DemoFlights() && DemoFlights()[f.flightId] == f
  {
    if c == "A" {
      assert f == J1;
    } else if c == "B" {
      assert f == J2 || f == J3;
    } else if c == "C" {
      assert f == J4;
    } else if c == "D" {
      assert f == J7;
    } else if c == "F" {
      assert f == J6;
    }
  }

  /** Every itinerary out of A at 01:00 in the sample schedule is one of seven. */
  lemma {:induction false} DemoItineraries(legs: seq<Flight>, city: CityName)
    requires IsItinerary(DemoAdjacency(), "A", 100, legs, city)
    ensures legs in {[], [J1], [J1, J2], [J1, J3], [J1, J2, J4], [J1, J3, J7], [J1, J3, J7, J6]}
    decreases |legs|
  {
    if legs != [] {
      var f := legs[|legs| - 1];
      var prefix := legs[..|legs| - 1];
      DemoItineraries(prefix, f.startCity);
      assert legs == prefix + [f];
      var adj := DemoAdjacency();
      assert f in adj[f.startCity];
      if prefix == [] {
        assert f.startCity == "A" && f == J1;
        assert legs == [J1];
      } else if prefix == [J1] {
        assert f.startCity == "B" && (f == J2 || f == J3);
        assert legs == [J1, J2] || legs == [J1, J3];
      } else if prefix == [J1, J2] {
        assert [J1, J2][..1] == [J1];
        assert f.startCity == "C" && f == J4;
        assert legs == [J1, J2, J4];
      } else if prefix == [J1, J3] {
        assert [J1, J3][..1] == [J1];
        assert f.startCity == "D" && f == J7;
        assert legs == [J1, J3, J7];
      } else if prefix == [J1, J3, J7] {
        assert [J1, J3, J7][..2] == [J1, J3];
        assert f.startCity == "F" && f == J6;
        assert legs == [J1, J3, J7, J6];
      }
    }
  }

  /** The sample schedule has only well-formed clock values. */
  lemma DemoWellTimed()
    ensures WellTimed(DemoAdjacency(), 100)
  {
  }

  /** J1, J3, J7, J6 is an itinerary from A to E that lands at 10:00. */
  lemma DemoRoute()
    ensures IsItinerary(DemoAdjacency(), "A", 100, [J1, J3, J7, J6], "E")
    ensures Arrival(100, [J1, J3, J7, J6]) == 600
  {
    var adj := DemoAdjacency();
    assert IsItinerary(adj, "A", 100, [], "A");
    ExtendItinerary(adj, "A", 100, [], "A", J1);
    assert [] + [J1] == [J1];
    ExtendItinerary(adj, "A", 100, [J1], "B", J3);
    assert [J1] + [J3] == [J1, J3];
    ExtendItinerary(adj, "A", 100, [J1, J3], "D", J7);
    assert [J1, J3] + [J7] == [J1, J3, J7];
    ExtendItinerary(adj, "A", 100, [J1, J3, J7], "F", J6);
    assert [J1, J3, J7] + [J6] == [J1, J3, J7, J6];
  }

  /** Only two itineraries out of A at 01:00 end in E. */
  lemma DemoTripsToE(legs: seq<Flight>)
    requires IsItinerary(DemoAdjacency(), "A", 100, legs, "E")
    ensures legs == [J1, J2, J4] || legs == [J1, J3, J7, J6]
  {
    DemoItineraries(legs, "E");
  }

  /** On the sample schedule the earliest trip from A to E at 01:00 flies J1, J3, J7, J6. */
  lemma DemoEarliestLegs(flights: map<FlightId, Flight>, path: seq<FlightId>)
    requires EarliestTrip(DemoAdjacency(), flights, "A", "E", 100, path)
    ensures Legs(flights, path) == [J1, J3, J7, J6]
  {
    DemoRoute();
    var legs := Legs(flights, path);
    DemoTripsToE(legs);
    assert Arrival(100, legs) <= 600;
  }

  /**
   On the sample schedule, any result that meets the search's contract for
   the query from A to E at 01:00 is the path J1, J3, J7, J6.
   */
  lemma DemoAnswer(flights: map<FlightId, Flight>, r: TripResult)
    requires FiledById(flights)
    requires SearchSpec(DemoAdjacency(), flights, "A", "E", 100, r)
    ensures r == Found(["J1", "J3", "J7", "J6"])
    ensures Render(r) == "J1,J3,J7,J6"
  {
    DemoWellTimed();
    DemoRoute();
    assert r.Found?;
    var path := r.path;
    DemoEarliestLegs(flights, path);
    var legs := Legs(flights, path);
    assert |path| == 4;
    assert path[0] == legs[0].flightId && path[1] == legs[1].flightId;
    assert path[2] == legs[2].flightId && path[3] == legs[3].flightId;
    assert path == ["J1", "J3", "J7", "J6"];
    DemoRendering();
  }

  /** The found path prints as the sample script's output line. */
  lemma DemoRendering()
    ensures Join(["J1", "J3", "J7", "J6"]) == "J1,J3,J7,J6"
  {
    assert Join(["J6"]) == "J6";
    assert ["J7", "J6"][1..] == ["J6"];
    assert Join(["J7", "J6"]) == "J7,J6";
    assert ["J3", "J7", "J6"][1..] == ["J7", "J6"];
    assert Join(["J3", "J7", "J6"]) == "J3,J7,J6";
    assert ["J1", "J3", "J7", "J6"][1..] == ["J3", "J7", "J6"];
  }
}
