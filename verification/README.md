# MBTA subway graph, modelled in Dafny

This project models the in-memory transit graph that `mbta-api-test.py`
builds from the MBTA v3 API, and the rules that run over it. It also models
the route-count statistics of `a.py`. The HTTP responses are treated as
inputs that are already decoded.

`mbta-api-test.py` keeps three global dicts: `all_routes`, `all_stops` and
`connecting_stops`. In the model they are the fields of the class
`Transit.TransitGraph`.

- Each function that fills a table is a method. It names the one table it
  writes in `modifies`.
- Each query is a method that only reads.
- The loops of `find_stop_name`, `get_stop_routes` and `get_all_stops` run
  over the tables as values (`StopNameIn`, `StopRoutesIn`, `AddStops`). The
  class methods apply them to the fields. `get_all_stops` writes the finished
  stop table back in one step. Nothing else reads or writes that table in
  between, so the effect is the same.
- Python's insertion-ordered `dict` is `PyDict.Dict`: a key order plus a map.
  `d[k] = v` is `PyDict.Put`. A new key is appended to the order; an existing
  key keeps its place.
- What each loop computes is specified in module `TransitSpec` by functions
  over the records and the tables. The loops are proved against those
  functions, and the properties are proved as lemmas about them.

The class invariant `Valid` (`TransitSpec.TablesValid`) requires three things:
- every route is stored under its own id and has been populated;
- every stop is stored under its own id, with pairwise distinct names;
- the connecting table holds stops exactly as the stop table holds them.

Every table-changing method keeps this invariant.

`a.py` builds `routes_stops_dict`, a table from route id to stop count, in
response order. It then prints every route whose count equals `max()` or
`min()` of the counts. Module `RouteCounts` models the table and returns the
printed lines as a sequence of `Most`/`Fewest` values.

Where the code and the written description of the program differ, the model
follows the code:
- `get_route` returns route ids, not long names.
- The fallback in `get_route` appends one hop for every connecting stop that
  meets both route sets, not only for the first one.
- `get_routes_with_max_and_min_stops` keeps the first route that reaches an
  extreme, because it compares strictly. It does not keep the last one.

## Model

| member | source | states |
|---|---|---|
| Transit.HasStop | mbta-api-test.py:55-60 | true exactly when some entry of the route's stop list is the stop id or the parent-station id |
| Transit.TransitGraph.GetStopByName | mbta-api-test.py:62-67 | the result is the first stored stop, in table order, with the name; `None` exactly when no stored stop has that name; a found stop is the one stored under its own id |
| Transit.TransitGraph.FindStopName | mbta-api-test.py:184-189 | true exactly when some stored stop has the name |
| Transit.StopNameIn | mbta-api-test.py:184-189 | the scan of a stop table answers true exactly when some stop in it has the name |
| Transit.StopRoutesIn | mbta-api-test.py:173-179 | the scan of a route table returns no duplicates; a route id is in the result exactly when that route is in the table and serves the stop or its parent station |
| Transit.AddStops | mbta-api-test.py:201-213 | starting from a valid stop table, the result is that table followed by exactly the `Admitted` records in response order; names stay distinct and keys stay ids; each new stop has its parent and exactly the serving routes; old entries are unchanged |
| Transit.ListOfSet | mbta-api-test.py:179 | `list(s)` holds each element of the set exactly once and nothing else |
| Transit.TransitGraph.GetStopRoutes | mbta-api-test.py:173-179 | no duplicate ids; a route id is in the result exactly when that route is in the table and `has_stop(stop_idx, parent_station)` holds for it |
| Transit.TransitGraph.GatherAllRouteIds | mbta-api-test.py:119-135 | keeps `Valid`; the keys are those of `InsertRoutes` of the records, in order; each route keeps the id and long name its last record gave it, and gets a list of its own: the fetched stop ids in response order, with `num_stops` equal to their number |
| Transit.TransitGraph.GetAllStops | mbta-api-test.py:201-213 | keeps `Valid` (distinct names, keys equal to ids); the table becomes the old table followed by exactly the `Admitted` records (neither id nor name already stored); each is stored with its parent and exactly the serving routes; old entries are unchanged |
| Transit.TransitGraph.FindConnectingStops | mbta-api-test.py:236-238 | keeps `Valid`; the connecting table becomes the old one with every stop that has more than one route put in, in stop-table order; the stop table is not in its frame |
| Transit.TransitGraph.GetRoutesWithMaxAndMinStops | mbta-api-test.py:139-150 | `Extremes` of the routes in table order |
| Transit.ScanExtremes | mbta-api-test.py:142-150 | max bounds every count; min bounds every count and is at most `2**32`; a reported name belongs to the first route that reaches that count; no max name exactly when every count is 0; no min name exactly when no count is below `2**32` |
| Transit.TransitGraph.GetRoute | mbta-api-test.py:272-298 | an unknown name is an error; with a shared route, the answer is one route from the intersection; with none, a stop A with no routes is an error; otherwise the first hop is one of A's routes, the length is 1 plus the number of bridging connecting stops, and hop k+1 is in B's routes and in the k-th bridging stop's routes |
| Transit.FallbackHops | mbta-api-test.py:284-293 | first hop in A's route set; one further hop per connecting stop meeting both sets, each in B's set and that stop's routes |
| TransitSpec.FirstNamedIsFirstMatch | mbta-api-test.py:62-67 | the name lookup is `None` exactly when no stop along the order has the name, and otherwise it is the stop at the first position with that name |
| TransitSpec.NamedStopIsUnique | mbta-api-test.py:62-67 | with distinct names, looking up a stored stop's name returns that stop |
| TransitSpec.InsertRoutesKeys | mbta-api-test.py:120-122 | the old keys stay a prefix of the key order; the keys are the old ids plus the records' ids |
| TransitSpec.InsertRoutesLastWins | mbta-api-test.py:120-122 | the last record with an id sets that id's route: that long name, with no stops and no count yet |
| TransitSpec.InsertRoutesKeepsOthers | mbta-api-test.py:120-122 | an old route whose id no record carries is left unchanged |
| TransitSpec.AdmittedFresh | mbta-api-test.py:207 | the stored records come from the response; their ids and names are pairwise distinct and not already stored |
| TransitSpec.AdmittedGrows | mbta-api-test.py:201-213 | the records stored from a prefix of the response are a prefix of those stored from all of it |
| TransitSpec.FirstNameWins | mbta-api-test.py:207 | once a record is stored, every later record with the same name is skipped |
| TransitSpec.ConnectingIdsMembership | mbta-api-test.py:236-237 | an id is picked exactly when it is in the table and its stop has more than one route |
| TransitSpec.ConnectingTableExact | mbta-api-test.py:224-238 | starting from the empty table, the connecting table holds exactly the stops with more than one route, as stored, in stop-table order |
| TransitSpec.ConnectingIdsDistinct | mbta-api-test.py:236-237 | the picked ids are distinct when the table's keys are |
| TransitSpec.PutAllEntries | mbta-api-test.py:236-238 | after the puts, the table holds the old keys and the picked keys; picked keys map to the stop table's stops; others are unchanged; the old order is a prefix |
| RouteCounts.BuildCountTable | a.py:73-82 | `route_ids` is the response's ids in order; the table is `CountTable` of the records |
| RouteCounts.CountTableKeys | a.py:77-82 | the keys are exactly the fetched route ids |
| RouteCounts.CountTableLastWins | a.py:77-82 | an id maps to the count of its last record, so a repeated id keeps the later count |
| RouteCounts.CountTableOrder | a.py:77-82 | the key order is the order of first occurrence: an earlier key occurs in the response before every occurrence of a later one |
| RouteCounts.MaxOf | a.py:85 | `max()` is one of the values and bounds all of them from above |
| RouteCounts.MinOf | a.py:86 | `min()` is one of the values and bounds all of them from below |
| RouteCounts.CountBounds | a.py:85-86 | the maximum and minimum of the table's values bound every count and are each some route's count |
| RouteCounts.ReportExtremes | a.py:84-91 | `max_stops` bounds every count and is attained; `min_stops` likewise; the lines are `ReportOf` the table in its order |
| RouteCounts.ReportLines | a.py:87-91 | the lines printed by the loop over `items()` are `ReportOf` the table |
| RouteCounts.ReportMembership | a.py:87-91 | a route gets a "most" line exactly when its count is the maximum, and a "fewest" line exactly when it is the minimum, so every tie is reported |
| RouteCounts.AllTiedReportedBoth | a.py:87-91 | when all counts are equal, every route is reported both as "most" and as "fewest" |
| RouteCounts.ReportRoutesIn | a.py:87-91 | every line names a route of the table |
| RouteCounts.ReportOrder | a.py:87-91 | lines follow the table's order; two lines for the same route are one "most" line followed by one "fewest" line |

## Left out

- HTTP and JSON: requests, URLs, API keys and JSON paths (mbta-api-test.py:112-117, 125-127, 193-199; a.py:69-71, 79-81). The decoded responses are the inputs: route records, a function from route id to the fetched stop ids, stop records, and (id, count) records.
- Printing and format strings. The reported values and the `Most`/`Fewest` lines stand for what is printed.
- `get_routes_by_stop`: it uses an undefined name and is never called.
- `Stop.is_on_route`: it reads `.idx` from plain route-id strings and is never called.
- `get_stop_name`: an unfinished stub that only builds a URL.
- The `__repr__` methods, and the first `Route.__init__`, which the second one overrides.
- a.py after its `exit()`, and the top-level demo calls of `get_route`.
- `Stop`, `Route`: Python objects are values here. The shared mutable default lists (`stops=[]`, `routes=[]`) are not modelled. Each route gets its own list at population, as line 130 makes the code do, and each stop gets its own route list.
- Transit.TransitGraph.GetRoutesWithMaxAndMinStops: where the code would fail at the print because no route set a name (an empty table, or all counts 0 or all ≥ `2**32`), the model returns `None` for that name.
- Transit.TransitGraph.GetRoutesWithMaxAndMinStops: a route with no `num_stops` (comparing `None` fails in Python) cannot occur, because `Valid` requires every stored route to be populated.
- Transit.TransitGraph.GetRoute: the `None.routes` fault for an unknown name and the `list(set())[0]` fault for a stop A without routes are `Err` results. The `all_stops[cs]` key error cannot occur, because `Valid` keeps the connecting table inside the stop table.
- Transit.TransitGraph.GetRoute: `list(set)[0]` is an arbitrary element of the set. The contract states membership, not which element is chosen.
- Transit.ListOfSet: the order of `list(set)` is left open. Only "each element once" is stated.
- RouteCounts.ReportExtremes: `max()` and `min()` of an empty table fault in Python. Here they are a precondition (a non-empty table).
- Field-level frames: each population method may change only the table it writes. The model states no separate "nothing else changes" postconditions.
