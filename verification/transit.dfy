/** The in-memory transit graph of mbta-api-test.py: the global tables
    `all_routes`, `all_stops` and `connecting_stops` become the fields of a
    `TransitGraph`, the functions that fill them become methods that modify it,
    and the lookups, statistics and route finder become methods that only read
    it. The HTTP responses are the methods' inputs, already decoded. */
module Transit {
  import opened Wrappers
  import opened PyDict
  import opened TransitSpec

  /** `Route.has_stop`: scans the route's stop list and answers as soon as an
      entry is the stop's id or its parent station's id. */
  method HasStop(route: Route, idx: string, station: string) returns (found: bool)
    ensures found <==> exists i :: 0 <= i < |route.stops| && (route.stops[i] == idx || route.stops[i] == station)
    ensures found == Serves(route, idx, station)
  {
    var i := 0;
    while i < |route.stops|
      invariant 0 <= i <= |route.stops|
      invariant forall j :: 0 <= j < i ==> route.stops[j] != idx && route.stops[j] != station
    {
      if route.stops[i] == idx || route.stops[i] == station {
        return true;
      }
      i := i + 1;
    }
    return false;
  }

  /** `list(s)`: the elements of a set, once each, in an order the set does not
      determine. */
  method ListOfSet(s: set<string>) returns (xs: seq<string>)
    ensures Distinct(xs)
    ensures forall x :: x in xs <==> x in s
  {
    xs := [];
    var rest := s;
    while rest != {}
      invariant rest <= s
      invariant Distinct(xs)
      invariant forall x :: x in xs <==> x in s && x !in rest
      decreases rest
    {
      var x :| x in rest;
      xs := xs + [x];
      rest := rest - {x};
    }
  }

  class TransitGraph {
    /** `all_routes`: route id to route, in insertion order. */
    var allRoutes: Dict<Route>
    /** `all_stops`: stop id to stop, in insertion order. */
    var allStops: Dict<Stop>
    /** `connecting_stops`: stop id to stop, for stops with several routes. */
    var connectingStops: Dict<Stop>

    /** The tables are well-formed dicts; every route is stored under its own
        id and is populated; every stop is stored under its own id and no two
        stored stops share a name; the connecting table holds stops exactly as
        the stop table holds them. */
    ghost predicate Valid()
      reads this
    {
      TablesValid(allRoutes, allStops, connectingStops)
    }

    /** The tables as the program starts: all three empty. */
    constructor ()
      ensures Valid()
      ensures allRoutes == EmptyDict() && allStops == EmptyDict() && connectingStops == EmptyDict()
    {
      allRoutes := EmptyDict();
      allStops := EmptyDict();
      connectingStops := EmptyDict();
    }

    // -------------------------------------------------------------------
    // Populating the tables

    /** `gather_all_route_ids`, with the routes response given as `data` and
        the stops response of each route as `fetchStops`. Every record stores
        a new route under its id; then every route in the table gets a list of
        its own holding the fetched stop ids in response order, and their
        number. */
    method GatherAllRouteIds(data: seq<RouteRecord>, fetchStops: string -> seq<string>)
      requires Valid()
      modifies this`allRoutes
      ensures Valid()
      ensures allRoutes.keys == InsertRoutes(old(allRoutes), data).keys
      ensures forall k :: k in allRoutes.m ==>
                && allRoutes.m[k].idx == InsertRoutes(old(allRoutes), data).m[k].idx
                && allRoutes.m[k].name == InsertRoutes(old(allRoutes), data).m[k].name
                && allRoutes.m[k].stops == fetchStops(k)
                && allRoutes.m[k].numStops == Some(|fetchStops(k)|)
    {
      var routes := allRoutes;
      ghost var routes0 := routes;
      var i := 0;
      while i < |data|
        invariant 0 <= i <= |data|
        invariant routes == InsertRoutes(routes0, data[..i])
      {
        assert data[..i + 1][..i] == data[..i];
        routes := Put(routes, data[i].id, Route(data[i].id, data[i].longName, [], None));
        i := i + 1;
      }
      assert data[..|data|] == data;
      ghost var inserted := routes;
      var keys := routes.keys;
      var j := 0;
      while j < |keys|
        invariant 0 <= j <= |keys|
        invariant PopulatedUpTo(routes, inserted, fetchStops, j) && routes.keys == keys
      {
        var k := keys[j];
        var stops := fetchStops(k);
        PopulateNext(routes, inserted, fetchStops, j);
        routes := Put(routes, k, routes.m[k].(stops := stops, numStops := Some(|stops|)));
        j := j + 1;
      }
      PopulatedAll(routes, inserted, fetchStops);
      allRoutes := routes;
    }

    /** `get_stop_routes` over the route table. */
    method GetStopRoutes(stopIdx: string, parentStation: string) returns (routes: seq<string>)
      requires Valid()
      ensures Distinct(routes)
      ensures forall r :: r in routes <==> r in allRoutes.m && Serves(allRoutes.m[r], stopIdx, parentStation)
      ensures Elems(routes) == ServingRoutes(allRoutes, stopIdx, parentStation)
    {
      routes := StopRoutesIn(allRoutes, stopIdx, parentStation);
    }

    /** `find_stop_name` over the stop table. */
    method FindStopName(name: string) returns (found: bool)
      requires Valid()
      ensures found <==> exists k :: k in allStops.m && allStops.m[k].name == name
      ensures found <==> name in NamesOf(allStops)
    {
      found := StopNameIn(allStops, name);
    }

    /** `get_all_stops`, with the stops response given as `data`: a record is
        stored, with the routes that serve it, only when neither its id nor
        its name is stored already; stored stops are never changed. */
    method GetAllStops(data: seq<StopRecord>)
      requires Valid()
      modifies this`allStops
      ensures Valid()
      ensures StoredExactly(allStops, old(allStops), allRoutes, Admitted(old(allStops.m.Keys), NamesOf(old(allStops)), data))
    {
      var stops := AddStops(allRoutes, allStops, data);
      allStops := stops;
    }

    /** `find_connecting_stops`: every stop of the table, in table order,
        whose route list has more than one entry is put into the connecting
        table; the stop table is left as it was. */
    method FindConnectingStops()
      requires Valid()
      modifies this`connectingStops
      ensures Valid()
      ensures connectingStops == PutAll(old(connectingStops), ConnectingIds(allStops.keys, allStops.m), allStops.m)
    {
      var d := allStops;
      var conn := connectingStops;
      ghost var conn0 := conn;
      var i := 0;
      while i < |d.keys|
        invariant 0 <= i <= |d.keys|
        invariant conn == PutAll(conn0, ConnectingIds(d.keys[..i], d.m), d.m)
        invariant ConnectingWithin(conn, d)
      {
        var stop := d.m[d.keys[i]];
        if |stop.routes| > 1 {
          ConnectingNext(conn0, d, i, conn);
          conn := Put(conn, d.keys[i], stop);
        } else {
          NotConnectingNext(d, i);
        }
        i := i + 1;
      }
      assert d.keys[..|d.keys|] == d.keys;
      connectingStops := conn;
    }

    // -------------------------------------------------------------------
    // Queries

    /** `get_stop_by_name`: the first stored stop, in table order, with the
        name, or `None`. */
    method GetStopByName(name: string) returns (stop: Option<Stop>)
      requires Valid()
      ensures stop == FirstNamed(allStops.keys, allStops.m, name)
      ensures stop.None? <==> name !in NamesOf(allStops)
      ensures stop.Some? ==> stop.value.name == name && stop.value.idx in allStops.m && allStops.m[stop.value.idx] == stop.value
    {
      var i := 0;
      while i < |allStops.keys|
        invariant 0 <= i <= |allStops.keys|
        invariant FirstNamed(allStops.keys, allStops.m, name) == FirstNamed(allStops.keys[i..], allStops.m, name)
      {
        assert allStops.keys[i..][1..] == allStops.keys[i + 1..];
        var s := allStops.m[allStops.keys[i]];
        if s.name == name {
          stop := Some(s);
          NamedStopIsUnique(allStops, allStops.keys[i]);
          return;
        }
        i := i + 1;
      }
      stop := None;
      FirstNamedIsFirstMatch(allStops.keys, allStops.m, name);
    }

    /** `get_routes_with_max_and_min_stops`: one scan over the routes in
        table order keeping a running maximum (from 0) and minimum (from
        `2**32`), replaced only on a strictly larger or smaller count, so the
        first route reaching an extreme is the one reported. A name is `None`
        when it is never assigned, where the report would fail. */
    method GetRoutesWithMaxAndMinStops() returns (maxRoute: Option<string>, maxStops: nat, minRoute: Option<string>, minStops: nat)
      requires Valid()
      ensures Extremes(Values(allRoutes), maxRoute, maxStops, minRoute, minStops)
    {
      var routes := Values(allRoutes);
      maxRoute, maxStops, minRoute, minStops := ScanExtremes(routes);
    }

    /** The stops along the connecting table, in its order, that share a route
        with both route sets. */
    ghost function Bridges(ra: set<string>, rb: set<string>): seq<string>
      reads this
      requires Valid()
    {
      BridgeStops(connectingStops.keys, allStops.m, ra, rb)
    }

    /** `get_route`: looks both stops up by name; an unknown name is an error.
        If the two stops share a route the answer is one shared route.
        Otherwise the first hop is one of the first stop's routes (an error if
        it has none), followed, for each connecting stop in table order that
        shares a route with both stops, by one route shared by that stop and
        the second stop. Hops are route ids. Nothing is modified. */
    method GetRoute(nameA: string, nameB: string) returns (res: Result<seq<string>, RouteError>)
      requires Valid()
      ensures FirstNamed(allStops.keys, allStops.m, nameA).None? ==> res == Err(UnknownStop(nameA))
      ensures FirstNamed(allStops.keys, allStops.m, nameA).Some? && FirstNamed(allStops.keys, allStops.m, nameB).None? ==>
                res == Err(UnknownStop(nameB))
      ensures
        var a := FirstNamed(allStops.keys, allStops.m, nameA);
        var b := FirstNamed(allStops.keys, allStops.m, nameB);
        a.Some? && b.Some? ==>
          var ra, rb := Elems(a.value.routes), Elems(b.value.routes);
          && (ra * rb != {} ==> res.Ok? && |res.value| == 1 && res.value[0] in ra * rb)
          && (ra * rb == {} && ra == {} ==> res == Err(NoRouteFromStop(nameA)))
          && (ra * rb == {} && ra != {} ==>
                && res.Ok? && |res.value| == 1 + |Bridges(ra, rb)| && res.value[0] in ra
                && forall k :: 0 <= k < |Bridges(ra, rb)| ==> res.value[k + 1] in rb * Elems(allStops.m[Bridges(ra, rb)[k]].routes))
    {
      var stopA := GetStopByName(nameA);
      var stopB := GetStopByName(nameB);
      if stopA.None? {
        res := Err(UnknownStop(nameA));
      } else if stopB.None? {
        res := Err(UnknownStop(nameB));
      } else {
        var ra := Elems(stopA.value.routes);
        var rb := Elems(stopB.value.routes);
        var shared := ra * rb;
        if shared != {} {
          var r :| r in shared;
          res := Ok([r]);
        } else if ra == {} {
          res := Err(NoRouteFromStop(nameA));
        } else {
          var hops := FallbackHops(connectingStops.keys, allStops.m, ra, rb);
          res := Ok(hops);
        }
      }
    }

  }

  /** The loop of `get_routes_with_max_and_min_stops` over the routes'
      values. */
  method ScanExtremes(routes: seq<Route>) returns (maxRoute: Option<string>, maxStops: nat, minRoute: Option<string>, minStops: nat)
    requires forall j :: 0 <= j < |routes| ==> routes[j].numStops.Some?
    ensures Extremes(routes, maxRoute, maxStops, minRoute, minStops)
  {
    maxStops, minStops := 0, MinSentinel;
    maxRoute, minRoute := None, None;
    ghost var maxAt: nat, minAt: nat := 0, 0;
    var i := 0;
    while i < |routes|
      invariant 0 <= i <= |routes|
      invariant forall j :: 0 <= j < i ==> routes[j].numStops.value <= maxStops
      invariant maxRoute.None? <==> forall j :: 0 <= j < i ==> routes[j].numStops.value == 0
      invariant maxRoute.None? ==> maxStops == 0
      invariant maxRoute.Some? ==> maxStops > 0
      invariant maxRoute.Some? ==>
                  maxAt < i && routes[maxAt].numStops.value == maxStops && routes[maxAt].name == maxRoute.value
                  && forall j :: 0 <= j < maxAt ==> routes[j].numStops.value < maxStops
      invariant minStops <= MinSentinel
      invariant forall j :: 0 <= j < i ==> minStops <= routes[j].numStops.value
      invariant minRoute.None? <==> forall j :: 0 <= j < i ==> routes[j].numStops.value >= MinSentinel
      invariant minRoute.None? ==> minStops == MinSentinel
      invariant minRoute.Some? ==> minStops < MinSentinel
      invariant minRoute.Some? ==>
                  minAt < i && routes[minAt].numStops.value == minStops && routes[minAt].name == minRoute.value
                  && forall j :: 0 <= j < minAt ==> routes[j].numStops.value > minStops
    {
      var n := routes[i].numStops.value;
      if n > maxStops {
        maxRoute, maxStops, maxAt := Some(routes[i].name), n, i;
      }
      if n < minStops {
        minRoute, minStops, minAt := Some(routes[i].name), n, i;
      }
      i := i + 1;
    }
  }

  /** The fallback branch of `get_route`: one of the first stop's routes,
      then, for each connecting stop id along `cs` whose stop shares a route
      with both route sets, one route shared by that stop and the second
      stop. */
  method FallbackHops(cs: seq<string>, stops: map<string, Stop>, ra: set<string>, rb: set<string>) returns (hops: seq<string>)
    requires ra != {}
    requires forall k :: k in cs ==> k in stops
    ensures |hops| == 1 + |BridgeStops(cs, stops, ra, rb)| && hops[0] in ra
    ensures forall k :: 0 <= k < |BridgeStops(cs, stops, ra, rb)| ==>
              hops[k + 1] in rb * Elems(stops[BridgeStops(cs, stops, ra, rb)[k]].routes)
  {
    var first :| first in ra;
    hops := [first];
    var i := 0;
    while i < |cs|
      invariant 0 <= i <= |cs|
      invariant |hops| == 1 + |BridgeStops(cs[..i], stops, ra, rb)|
      invariant hops[0] in ra
      invariant forall k :: 0 <= k < |BridgeStops(cs[..i], stops, ra, rb)| ==>
                  hops[k + 1] in rb * Elems(stops[BridgeStops(cs[..i], stops, ra, rb)[k]].routes)
    {
      assert cs[..i + 1] == cs[..i] + [cs[i]];
      BridgeStopsSnoc(cs[..i], cs[i], stops, ra, rb);
      assert cs[i] in cs;
      var sr := Elems(stops[cs[i]].routes);
      var viaA := ra * sr;
      var viaB := rb * sr;
      if viaA != {} && viaB != {} {
        var r :| r in viaB;
        hops := hops + [r];
      }
      i := i + 1;
    }
    assert cs[..|cs|] == cs;
  }

  /** The loop of `get_stop_routes`: every route of the table, in table
      order, whose stop list has the stop or its parent station is added to
      a set, which is then listed. */
  method StopRoutesIn(table: Dict<Route>, stopIdx: string, parentStation: string) returns (routes: seq<string>)
    requires table.Valid()
    ensures Distinct(routes)
    ensures forall r :: r in routes <==> r in table.m && Serves(table.m[r], stopIdx, parentStation)
    ensures Elems(routes) == ServingRoutes(table, stopIdx, parentStation)
  {
    var ret: set<string> := {};
    var i := 0;
    while i < |table.keys|
      invariant 0 <= i <= |table.keys|
      invariant forall r :: r in ret <==> r in table.keys[..i] && Serves(table.m[r], stopIdx, parentStation)
    {
      var routeId := table.keys[i];
      var on := HasStop(table.m[routeId], stopIdx, parentStation);
      if on {
        ret := ret + {routeId};
      }
      assert table.keys[..i + 1] == table.keys[..i] + [routeId];
      i := i + 1;
    }
    assert table.keys[..i] == table.keys;
    routes := ListOfSet(ret);
  }

  /** The loop of `find_stop_name`: whether some stop of the table has the
      name, answering at the first one that has it. */
  method StopNameIn(table: Dict<Stop>, name: string) returns (found: bool)
    requires table.Valid()
    ensures found <==> exists k :: k in table.m && table.m[k].name == name
    ensures found <==> name in NamesOf(table)
  {
    var i := 0;
    while i < |table.keys|
      invariant 0 <= i <= |table.keys|
      invariant forall t :: 0 <= t < i ==> table.m[table.keys[t]].name != name
    {
      if table.m[table.keys[i]].name == name {
        return true;
      }
      i := i + 1;
    }
    forall k | k in table.m ensures table.m[k].name != name {
      var t :| 0 <= t < |table.keys| && table.keys[t] == k;
    }
    return false;
  }

  /** The loop of `get_all_stops` over the stops response, starting from
      the stop table `stops0`: each record whose id and name are both new to
      the table built so far is stored, with the routes of `routes` that
      serve it; the others are skipped. */
  method AddStops(routes: Dict<Route>, stops0: Dict<Stop>, data: seq<StopRecord>) returns (stops: Dict<Stop>)
    requires RoutesValid(routes) && StopsValid(stops0)
    ensures StoredExactly(stops, stops0, routes, Admitted(stops0.m.Keys, NamesOf(stops0), data))
  {
    stops := stops0;
    ghost var adm: seq<StopRecord> := [];
    assert data[..0] == [];
    StoredNothing(stops, routes);
    var i := 0;
    while i < |data|
      invariant 0 <= i <= |data|
      invariant adm == Admitted(stops0.m.Keys, NamesOf(stops0), data[..i])
      invariant StoredExactly(stops, stops0, routes, adm)
    {
      var e := data[i];
      var known := StopNameIn(stops, e.name);
      if e.id !in stops.m && !known {
        AdmittedNext(stops, stops0, routes, data, i, adm);
        var rs := StopRoutesIn(routes, e.id, e.parent);
        AdmitNext(stops, stops0, routes, adm, e, rs);
        stops := Put(stops, e.id, Stop(e.id, e.name, e.parent, rs, false));
        adm := adm + [e];
      } else {
        SkippedNext(stops, stops0, routes, data, i, adm);
      }
      i := i + 1;
    }
    assert data[..|data|] == data;
  }
}
