/**
 The values the trip planner stores and returns: flights, the store's
 error conditions, search results, and the invariant tying the store's
 three collections together.
 */
module Schedule {

  type CityName = string
  type FlightId = string

  /** One scheduled leg; the times are HHMM clock values. */
  datatype Flight = Flight(
    flightId: FlightId,
    startCity: CityName,
    destCity: CityName,
    departureTime: int,
    arrivalTime: int)

  /** The three `ValueError` conditions the planner raises. */
  datatype PlannerError =
    | CityNotInDatabase   // an endpoint or a queried city was never registered
    | InvalidTimes        // departure not strictly before arrival
    | FlightIdExists      // the flight id is already taken

  /** Outcome of an operation that returns nothing on success. */
  datatype Outcome = Pass | Fail(error: PlannerError)

  /** Outcome of an operation that returns a value on success. */
  datatype Result<T> = Ok(value: T) | Err(error: PlannerError)

  /** What a search returns: the flight ids in travel order, or no itinerary at all. */
  datatype TripResult = Found(path: seq<FlightId>) | NoFlightExists

  /** Outbound flights of each city, in insertion order. */
  type Adjacency = map<CityName, seq<Flight>>

  /** No id is empty and none holds a comma, so a joined path can be split back. */
  predicate SeparableIds(ids: seq<FlightId>)
  {
    forall i :: 0 <= i < |ids| ==> ids[i] != "" && ',' !in ids[i]
  }

  /** The text cut at every comma, as Python's `s.split(',')` does. */
  function Split(s: string): (parts: seq<string>)
    ensures |parts| >= 1
  {
    if s == "" then [""]
    else if s[0] == ',' then [""] + Split(s[1..])
    else
      var tail := Split(s[1..]);
      [[s[0]] + tail[0]] + tail[1..]
  }

  /** Splitting a comma-free id followed by a comma yields that id first. */
  lemma {:induction false} SplitAfterId(id: string, rest: string)
    requires ',' !in id
    ensures Split(id + "," + rest) == [id] + Split(rest)
    decreases |id|
  {
    if id == "" {
      assert id + "," + rest == [','] + rest;
      assert ([','] + rest)[1..] == rest;
    } else {
      assert (id + "," + rest)[1..] == id[1..] + "," + rest;
      assert ',' !in id[1..] by {
        forall k | 0 <= k < |id[1..]| ensures id[1..][k] != ',' { assert id[1..][k] == id[k + 1]; }
      }
      SplitAfterId(id[1..], rest);
      assert [id[0]] + id[1..] == id;
    }
  }

  /** The ids joined with commas, as `','.join(path)` does. */
  function Join(ids: seq<FlightId>): (s: string)
    ensures |ids| > 0 ==> |ids[0]| <= |s| && s[..|ids[0]|] == ids[0]
    ensures |ids| > 1 ==> |ids[0]| < |s| && s[|ids[0]|] == ','
  {
    if |ids| == 0 then ""
    else if |ids| == 1 then ids[0]
    else ids[0] + "," + Join(ids[1..])
  }

  /** Joining separable ids and splitting the text at its commas gives the ids back. */
  lemma {:induction false} JoinSplitsBack(ids: seq<FlightId>)
    requires ids != [] && SeparableIds(ids)
    ensures Split(Join(ids)) == ids
    ensures Join(ids) != ""
    decreases |ids|
  {
    if |ids| == 1 {
      SplitWithoutComma(ids[0]);
    } else {
      var rest := Join(ids[1..]);
      forall i | 0 <= i < |ids[1..]| ensures ids[1..][i] != "" && ',' !in ids[1..][i] { assert ids[1..][i] == ids[i + 1]; }
      JoinSplitsBack(ids[1..]);
      SplitAfterId(ids[0], rest);
      assert ids == [ids[0]] + ids[1..];
    }
  }

  /** A comma-free text splits into itself. */
  lemma {:induction false} SplitWithoutComma(id: string)
    requires ',' !in id
    ensures Split(id) == [id]
    decreases |id|
  {
    if id != "" {
      assert ',' !in id[1..] by {
        forall k | 0 <= k < |id[1..]| ensures id[1..][k] != ',' { assert id[1..][k] == id[k + 1]; }
      }
      SplitWithoutComma(id[1..]);
      assert [id[0]] + id[1..] == id;
    }
  }

  const NoFlightText := "No Flight Exists"

  /** The text the planner returns for a search result. */
  function Render(r: TripResult): (s: string)
    ensures r.NoFlightExists? ==> Parse(s) == r
    ensures r.Found? && SeparableIds(r.path) && r.path != [NoFlightText] ==> Parse(s) == r
  {
    match r
    case Found(path) =>
      assert path != [] && SeparableIds(path) ==> Split(Join(path)) == path && Join(path) != "" by {
        if path != [] && SeparableIds(path) { JoinSplitsBack(path); }
      }
      assert path != [] && SeparableIds(path) && path != [NoFlightText] ==> Join(path) != NoFlightText by {
        assert ',' !in NoFlightText;
        SplitWithoutComma(NoFlightText);
      }
      Join(path)
    case NoFlightExists => NoFlightText
  }

  /** Reads a rendered result back: the literal, the empty path, or the ids between commas. */
  function Parse(s: string): TripResult
  {
    if s == NoFlightText then NoFlightExists
    else if s == "" then Found([])
    else Found(Split(s))
  }

  /** Every stored flight is filed under its own id. */
  ghost predicate FiledById(flights: map<FlightId, Flight>)
  {
    forall id :: id in flights ==> flights[id].flightId == id
  }

  /**
   The store invariant: every city has an outbound list; every stored
   flight is filed under its own id, joins two registered cities and
   departs (in raw HHMM) before it arrives; every flight in the outbound
   list of `c` leaves from `c` and is the flight stored under its id.
   */
  ghost predicate StoreInvariant(cities: set<CityName>, flights: map<FlightId, Flight>, adj: Adjacency)
  {
    && adj.Keys == cities
    && FiledById(flights)
    && (forall id :: id in flights ==>
          && flights[id].startCity in cities
          && flights[id].destCity in cities
          && flights[id].departureTime < flights[id].arrivalTime)
    && (forall c, f :: c in adj && f in adj[c] ==>
          f.startCity == c && f.flightId in flights && flights[f.flightId] == f)
  }
}
