# Trip planner: a verified Dafny model

This project models the `TripPlanner` of `Flight.py`. The planner stores a flight schedule and answers earliest-arrival queries over it.

- **The store.** It holds a set of cities, a dictionary from flight id to flight, and one outbound-flight list per city. `add_city` registers a city and resets that city's outbound list. `add_flight` checks its input, then stores the flight and appends it to the list of its start city.
- **The search.** `find_trip` checks that both cities are registered, then runs `_dijkstra`. This is a Dijkstra-style search keyed on arrival minutes. Its frontier holds `(time, city, path)` entries. A visited set lets each city be expanded at most once. Every connection after the first leg needs a layover of at least 60 minutes.
- **Times.** Times are HHMM integers. `_time_to_minutes` turns them into linear minutes.

The modules, from the bottom up:

- `Times` (times.dfy): `TimeToMinutes` and `ValidLayover`, with the source's three threshold tests kept as written.
- `Schedule` (schedule.dfy): the `Flight` datatype, the three error conditions, the search result, `Render` (comma join or `"No Flight Exists"`) and `StoreInvariant`.
- `Itinerary` (itinerary.dfy): the reference definition of an itinerary over scheduled legs, given twice. `IsItinerary` builds it recursively from the back, the way the search extends paths. `ChainedLegs` states it leg by leg. The file also holds `SearchSpec`, the contract that every search result meets.
- `Frontier` (frontier.dfy): frontier entries, selecting an entry of minimum time, and removing it.
- `Search` (search.dfy): the search's invariants, as ghost predicates, and the lemmas behind Dijkstra's argument.
- `Planner` (planner.dfy): the `TripPlanner` class. Its fields are `cities`, `flights` and `adjList`. Its methods `AddCity`, `AddFlight`, `FindTrip` and `Dijkstra` follow the source. `PushConnections` is the inner loop of the search.
- `Demo` (demo.dfy): the sample schedule at the end of `Flight.py` and the answer to its query.

**What is proved about the search.** If `Dijkstra` returns a path, that path is an itinerary. From a city to itself the answer is the empty path. A path returned for another city lands no later than any itinerary, and "No Flight Exists" is returned only when no itinerary exists. These hold for every clock value, including minute parts of 60 and above. The loop terminates: each pass either visits a new registered city or shrinks the frontier (`decreases cities - visited, |pq|`).

Why no well-formed times are needed: the store accepts a flight only when its raw HHMM departure is before its arrival. In minutes such a leg can still land before it leaves, but by at most 39 minutes (from minute part 99 of one hour to minute 00 of the next). Every leg after the first also waits at least 60 minutes. So each later leg lands at least 21 minutes after the previous arrival, and no city other than the start is ever settled too late.

**Behaviour of the code worth knowing:**

- There is no lookup of a flight by id. All three failures of `add_flight` and `find_trip` are `ValueError`s, modelled as one error enum.
- `add_city` on a registered city resets its outbound list to `[]` and keeps its flights in the dictionary. Those flights then take part in no search, so itineraries range over the legs that are on an outbound list ("scheduled" legs).
- From a city to itself `find_trip` returns the empty path, but with minute overflow that path need not be earliest: a loop A to A leaving at 1:99 and landing at 2:00 lands at 120 minutes, before the 159 minutes of staying put (`Itinerary.LoopLandsBeforeQuery`). With well-formed times the empty path is earliest.
- `_dijkstra` does not check its cities. It fails on an unregistered start city unless that city is also the destination. `Dijkstra` requires exactly that much.

## Model

| member | source | states |
|---|---|---|
| Times.TimeToMinutes | Flight.py:39-42 | HHMM to minutes with floor division and modulo by 100; on a time whose minute part is below 60, the hours and minutes can be read back from the result |
| Times.ValidLayover | Flight.py:44-52 | the three-branch layover test holds exactly when the departure is at least 60 minutes after the arrival |
| Times.MinutesOrderPreserving | Flight.py:39-42 | on times with minute part below 60, `a < b` holds exactly when `minutes(a) < minutes(b)` |
| Times.MinuteOverflowBreaksOrder | Flight.py:39-42 | without that condition order is lost: 199 < 200, yet they become 159 and 120 minutes |
| Times.MinuteOverflowBound | Flight.py:39-42 | if `a < b` in raw HHMM, then `minutes(b)` is at least `minutes(a) - 39`, for every integer |
| Frontier.MinIndex | Flight.py:59 | the entry popped from the frontier has the smallest time of all entries, and every entry before it has a larger time |
| Frontier.Remove | Flight.py:59 | popping takes out exactly that one entry: the remaining multiset is the old one less one copy of it |
| Schedule.Join | Flight.py:66 | `','.join(path)`: the text starts with the first id, followed by a comma when more ids come |
| Schedule.JoinSplitsBack | Flight.py:66 | for a non-empty path of non-empty, comma-free ids, splitting the joined text at its commas gives the path back, and the text is not empty |
| Schedule.StoreInvariant | Flight.py:12-31 | the store invariant: the outbound lists are keyed by the registered cities; every stored flight is filed under its id, joins two registered cities and departs before it arrives in raw HHMM; every flight on the list of `c` leaves `c` and is the flight stored under its id |
| Schedule.Render | Flight.py:65-78 | the text `find_trip` returns: "No Flight Exists" reads back as no flight; a path of non-empty, comma-free ids, other than the one-id path "No Flight Exists", reads back as that path |
| Itinerary.ExtendItinerary | Flight.py:71 | appending a scheduled leg that may follow gives an itinerary to the leg's destination, landing at the leg's arrival |
| Itinerary.ItineraryIffChained | Flight.py:65-76 | the recursive itinerary equals the leg-by-leg one: first leg from the start, leaving no earlier than the query time; each next leg from the previous destination after a layover of at least 60 minutes; last leg into the destination; every leg scheduled |
| Itinerary.ItineraryIsChained | Flight.py:65-76 | the recursive-to-leg-by-leg direction of the above |
| Itinerary.ChainedIsItinerary | Flight.py:65-76 | the leg-by-leg-to-recursive direction of the above |
| Itinerary.ArrivalNotBeforeQuery | Flight.py:55 | when every leg lands after it leaves, no itinerary lands before the query time |
| Itinerary.WellTimedLegsMoveForward | Flight.py:24 | a stored leg has raw departure before arrival; with well-formed times it also moves forward in minutes, so no search step goes back in time |
| Itinerary.StoredLegsJumpBackLittle | Flight.py:24 | whatever the clock values, every stored leg lands at most 39 minutes before it leaves |
| Itinerary.ArrivalLowerBound | Flight.py:55-75 | a non-empty itinerary never lands more than 39 minutes before the query time, because only its first leg can land before the time it starts from |
| Itinerary.LoopLandsBeforeQuery | Flight.py:39-42 | with minute overflow, a loop from A to A leaving at 1:99 lands before the empty path from A to A |
| Itinerary.EmptyPathEarliest | Flight.py:55-66 | with well-formed times, no itinerary from a city back to itself lands before the query time |
| Search.ReleasedLeg | Flight.py:68-76 | a leg that follows any itinerary to a visited city passes the push test at that city's expansion |
| Search.UnvisitedNotEarlier | Flight.py:58-63 | Dijkstra's key step: no itinerary reaches an unvisited city before the smallest frontier time |
| Search.FinalizePopped | Flight.py:59-63 | the first time a city is popped, its time is the earliest time at which any itinerary reaches it |
| Search.ExhaustedReachesOnlyVisited | Flight.py:58-78 | when the frontier is empty, every city an itinerary reaches has been visited |
| Search.RelaxedAfterDiscard | Flight.py:61-62 | skipping an entry for an already visited city loses no pending connection |
| Search.RelaxedAfterVisit | Flight.py:63 | visiting a new city loses no pending connection except that city's own outbound legs |
| Search.RelaxedExceptStep | Flight.py:68-76 | handling one more outbound leg accounts for it whenever it passes the push test |
| Search.ExhaustedMeetsSpec | Flight.py:58-78 | an empty frontier with the destination never popped means no itinerary reaches the destination, so "No Flight Exists" is correct |
| Search.FoundMeetsSpec | Flight.py:59-66 | returning the path of the destination's first popped entry meets the search contract |
| Search.PushTest | Flight.py:69-75 | the source's push test is the release rule: no earlier than the query time from the start city, otherwise a layover of at least 60 minutes after the last leg's arrival; a leg that passes may follow the entry's itinerary |
| Search.EntryExtend | Flight.py:71 | pushing `path + [flight_id]` at the leg's arrival minutes keeps the frontier entry a correct itinerary |
| Planner.TripPlanner.Valid | Flight.py:12-31 | the planner's fields meet the store invariant |
| Planner.TripPlanner.constructor | Flight.py:12-15 | an empty store that satisfies the store invariant |
| Planner.TripPlanner.AddCity | Flight.py:17-19 | adds the city, resets its outbound list to `[]` and leaves the flights untouched; keeps the store invariant |
| Planner.TripPlanner.AddFlight | Flight.py:21-31 | fails in order on an unregistered endpoint, then on raw departure >= arrival, then on a taken id, changing nothing; otherwise stores the flight under its id, appends it to its start city's list, and changes nothing else; keeps the store invariant |
| Planner.TripPlanner.FindTrip | Flight.py:33-37 | errors exactly when an endpoint is unregistered; otherwise the result meets the search contract |
| Planner.TripPlanner.Dijkstra | Flight.py:54-78 | terminates with a result that meets the search contract: a found path is an itinerary; the empty path from a city to itself; a path to another city lands earliest; "no flight" means no itinerary exists; none of this needs well-formed times, except that the empty path is claimed earliest only with well-formed times |
| Planner.TripPlanner.PushConnections | Flight.py:68-76 | the new frontier is the old one followed by one entry for each outbound leg of the expanded city that passes the push test, in list order; every entry is a correct itinerary, and every such leg is accounted for |
| Demo.DemoStoreValid | Flight.py:82-94 | the cities, flights and outbound lists the sample registrations produce form a valid store |
| Demo.DemoFlightsValid | Flight.py:89-94 | each sample flight is filed under its id, joins two sample cities and departs before it arrives |
| Demo.DemoListsValid | Flight.py:82-94 | each sample outbound list holds stored flights leaving from its own city |
| Demo.DemoItineraries | Flight.py:82-94 | on the sample schedule, every itinerary out of A at 01:00 is one of seven |
| Demo.DemoWellTimed | Flight.py:89-94 | the sample's clock values are all well formed |
| Demo.DemoRoute | Flight.py:89-97 | J1, J3, J7, J6 takes A to E, landing at 10:00 (600 minutes) |
| Demo.DemoTripsToE | Flight.py:89-97 | only J1, J2, J4 and J1, J3, J7, J6 take A to E |
| Demo.DemoEarliestLegs | Flight.py:89-97 | the earliest trip from A to E flies J1, J3, J7, J6 |
| Demo.DemoAnswer | Flight.py:97 | any result meeting the search contract for `find_trip("A", "E", 100)` is the path J1, J3, J7, J6 |
| Demo.DemoRendering | Flight.py:66 | the sample's path prints as `"J1,J3,J7,J6"` |

## Left out

- The sample script (Flight.py:80-97) builds a global planner and prints. The printing is I/O and is left out. The store the script's registrations produce is written out directly as `Demo.DemoCities`, `Demo.DemoFlights` and `Demo.DemoAdjacency`, and `Demo.DemoStoreValid` proves it meets the store invariant; the twelve registration calls are not replayed, because proving that concrete sequence is too costly for the solver.
- `heapq` is modelled as a sequence with minimum-time selection. Python breaks ties by comparing city names and path lists; the model pops the earliest-pushed entry of smallest time, and the proofs rely only on its minimality.
- The exception types and messages are not modelled. The three `ValueError`s become `PlannerError` values that follow the order of the source's checks.
- Schedule.Render: the text reads back uniquely only when every id is non-empty and comma-free, and the path is not the single id "No Flight Exists". Ids such as `"a,b"` or `""` make the returned text ambiguous, so no round trip is claimed for them.
- Planner.TripPlanner.PushConnections: the source's inner `for` loop is this separate method, so that each proof stays small. Its two push statements are merged into one guarded by the same tests.
