/** The route statistics of a.py: a table from route id to the number of
    stops its stops request returns, built in response order, and a report
    of every route whose count is the largest or the smallest. The HTTP
    responses are the inputs, already decoded. */
module RouteCounts {
  import opened PyDict

  /** One record of the routes response, with the number of records that
      route's stops request returns. */
  datatype RouteCount = RouteCount(id: string, numStops: nat)

  /** One printed line of the report. */
  datatype ReportLine = Most(route: string, stops: nat) | Fewest(route: string, stops: nat)

  // ---------------------------------------------------------------------
  // The count table

  /** `routes_stops_dict` after the records of `data`: every record puts its
      count under its id, in response order. */
  ghost function CountTable(data: seq<RouteCount>): (r: Dict<nat>)
    ensures r.Valid()
  {
    if data == [] then EmptyDict()
    else
      var e := data[|data| - 1];
      Put(CountTable(data[..|data| - 1]), e.id, e.numStops)
  }

  /** The two top-level loops: `route_ids` collects the ids of the routes
      response in order, then each id's count is stored in
      `routes_stops_dict`. */
  method BuildCountTable(data: seq<RouteCount>) returns (routeIds: seq<string>, table: Dict<nat>)
    ensures |routeIds| == |data| && forall i :: 0 <= i < |data| ==> routeIds[i] == data[i].id
    ensures table == CountTable(data)
  {
    routeIds := [];
    var i := 0;
    while i < |data|
      invariant 0 <= i <= |data|
      invariant |routeIds| == i && forall j :: 0 <= j < i ==> routeIds[j] == data[j].id
    {
      routeIds := routeIds + [data[i].id];
      i := i + 1;
    }
    table := EmptyDict();
    var j := 0;
    while j < |routeIds|
      invariant 0 <= j <= |routeIds|
      invariant table == CountTable(data[..j])
    {
      CountTableSnoc(data, j);
      table := Put(table, routeIds[j], data[j].numStops);
      j := j + 1;
    }
    assert data[..|data|] == data;
  }

  /** One more record is one more store into the table. */
  lemma CountTableSnoc(data: seq<RouteCount>, j: nat)
    requires j < |data|
    ensures CountTable(data[..j + 1]) == Put(CountTable(data[..j]), data[j].id, data[j].numStops)
  {
    assert data[..j + 1][..j] == data[..j];
  }

  /** The table's keys are exactly the ids of the response. */
  lemma {:induction false} CountTableKeys(data: seq<RouteCount>)
    ensures forall k :: k in CountTable(data).m <==> exists i :: 0 <= i < |data| && data[i].id == k
  {
    if data != [] {
      var pre := data[..|data| - 1];
      CountTableKeys(pre);
      forall k | k in CountTable(data).m ensures exists i :: 0 <= i < |data| && data[i].id == k {
        if k != data[|data| - 1].id {
          var i :| 0 <= i < |pre| && pre[i].id == k;
          assert data[i].id == k;
        }
      }
      forall k | exists i :: 0 <= i < |data| && data[i].id == k ensures k in CountTable(data).m {
        var i :| 0 <= i < |data| && data[i].id == k;
        if i < |data| - 1 {
          assert pre[i].id == k;
        }
      }
    }
  }

  /** An id maps to the count of its last record: a repeated id keeps the
      later count. */
  lemma {:induction false} CountTableLastWins(data: seq<RouteCount>, i: nat)
    requires i < |data| && forall j :: i < j < |data| ==> data[j].id != data[i].id
    ensures data[i].id in CountTable(data).m && CountTable(data).m[data[i].id] == data[i].numStops
  {
    if i < |data| - 1 {
      CountTableLastWins(data[..|data| - 1], i);
    }
  }

  /** The table's order is the order in which the ids first occur in the
      response: of two keys, the earlier one occurs in the response before
      any occurrence of the later one. */
  lemma {:induction false} CountTableOrder(data: seq<RouteCount>, p: nat, q: nat)
    requires p < q < |CountTable(data).keys|
    ensures exists i :: 0 <= i < |data| && data[i].id == CountTable(data).keys[p]
                        && forall j :: 0 <= j < |data| && data[j].id == CountTable(data).keys[q] ==> i < j
  {
    var pre := data[..|data| - 1];
    if q < |CountTable(pre).keys| {
      CountTableOrder(pre, p, q);
      var t0 := CountTable(pre);
      var i :| 0 <= i < |pre| && pre[i].id == t0.keys[p]
               && forall j :: 0 <= j < |pre| && pre[j].id == t0.keys[q] ==> i < j;
      OrderFromPrefix(data, pre, p, q, i);
    } else {
      OrderOfNewKey(data, p, q);
    }
  }

  /** Two keys already in the table before the last record keep their
      order and their witnesses. */
  lemma OrderFromPrefix(data: seq<RouteCount>, pre: seq<RouteCount>, p: nat, q: nat, i: nat)
    requires |data| > 0 && pre == data[..|data| - 1] && p < q < |CountTable(pre).keys|
    requires i < |pre| && pre[i].id == CountTable(pre).keys[p]
    requires forall j :: 0 <= j < |pre| && pre[j].id == CountTable(pre).keys[q] ==> i < j
    ensures data[i].id == CountTable(data).keys[p]
    ensures forall j :: 0 <= j < |data| && data[j].id == CountTable(data).keys[q] ==> i < j
  {
    var t0 := CountTable(pre);
    var keys := CountTable(data).keys;
    assert keys[p] == t0.keys[p] && keys[q] == t0.keys[q];
    forall j | 0 <= j < |data| && data[j].id == keys[q] ensures i < j {
      if j < |pre| {
        assert pre[j].id == keys[q];
      }
    }
    assert data[i].id == pre[i].id;
  }

  /** A key the last record adds comes after every other key, and its only
      occurrence is that last record. */
  lemma OrderOfNewKey(data: seq<RouteCount>, p: nat, q: nat)
    requires |data| > 0 && p < q < |CountTable(data).keys| && q >= |CountTable(data[..|data| - 1]).keys|
    ensures exists i :: 0 <= i < |data| && data[i].id == CountTable(data).keys[p]
                        && forall j :: 0 <= j < |data| && data[j].id == CountTable(data).keys[q] ==> i < j
  {
    var pre := data[..|data| - 1];
    var e := data[|data| - 1];
    var t0 := CountTable(pre);
    var keys := CountTable(data).keys;
    assert keys[q] == e.id && e.id !in t0.m;
    assert keys[p] == t0.keys[p];
    KeyHasRecord(pre, keys[p]);
    var i0 :| 0 <= i0 < |pre| && pre[i0].id == keys[p];
    forall j | 0 <= j < |data| && data[j].id == keys[q] ensures i0 < j {
      if j < |pre| {
        EarlierIdIsKey(data, j);
      }
    }
    assert data[i0].id == keys[p];
  }

  /** Every key of the table has a record with that id. */
  lemma KeyHasRecord(data: seq<RouteCount>, k: string)
    requires k in CountTable(data).m
    ensures exists i :: 0 <= i < |data| && data[i].id == k
  {
    CountTableKeys(data);
  }

  /** The id of any record but the last is already a key before the last
      record is stored. */
  lemma EarlierIdIsKey(data: seq<RouteCount>, j: nat)
    requires j < |data| - 1
    ensures data[j].id in CountTable(data[..|data| - 1]).m
  {
    var pre := data[..|data| - 1];
    CountTableKeys(pre);
    assert pre[j].id == data[j].id;
  }

  // ---------------------------------------------------------------------
  // max() and min()

  /** `max(xs)`: Python faults on an empty sequence. */
  function MaxOf(xs: seq<nat>): (m: nat)
    requires |xs| > 0
    ensures m in xs
    ensures forall x :: x in xs ==> x <= m
  {
    if |xs| == 1 then xs[0]
    else
      var rest := MaxOf(xs[..|xs| - 1]);
      assert forall x :: x in xs ==> x in xs[..|xs| - 1] || x == xs[|xs| - 1];
      if xs[|xs| - 1] > rest then xs[|xs| - 1] else rest
  }

  /** `min(xs)`: Python faults on an empty sequence. */
  function MinOf(xs: seq<nat>): (m: nat)
    requires |xs| > 0
    ensures m in xs
    ensures forall x :: x in xs ==> m <= x
  {
    if |xs| == 1 then xs[0]
    else
      var rest := MinOf(xs[..|xs| - 1]);
      assert forall x :: x in xs ==> x in xs[..|xs| - 1] || x == xs[|xs| - 1];
      if xs[|xs| - 1] < rest then xs[|xs| - 1] else rest
  }

  // ---------------------------------------------------------------------
  // The report

  /** The lines printed for one route: "most" when its count is `hi`, then
      "fewest" when it is `lo`. */
  function LinesFor(route: string, stops: nat, hi: nat, lo: nat): (r: seq<ReportLine>)
    ensures forall l :: l in r ==> l.route == route && l.stops == stops
    ensures |r| <= 2 && (|r| == 2 ==> r[0].Most? && r[1].Fewest?)
  {
    (if stops == hi then [Most(route, stops)] else []) + (if stops == lo then [Fewest(route, stops)] else [])
  }

  /** The lines printed along `keys`, in order. */
  ghost function ReportOf(keys: seq<string>, m: map<string, nat>, hi: nat, lo: nat): seq<ReportLine>
    requires forall k :: k in keys ==> k in m
  {
    if keys == [] then []
    else
      var k := keys[|keys| - 1];
      ReportOf(keys[..|keys| - 1], m, hi, lo) + LinesFor(k, m[k], hi, lo)
  }

  /** The report: the largest and smallest counts, and the lines the loop
      over `routes_stops_dict.items()` prints. */
  method ReportExtremes(table: Dict<nat>) returns (maxStops: nat, minStops: nat, lines: seq<ReportLine>)
    requires table.Valid() && |table.keys| > 0
    ensures forall k :: k in table.m ==> table.m[k] <= maxStops
    ensures exists k :: k in table.m && table.m[k] == maxStops
    ensures forall k :: k in table.m ==> minStops <= table.m[k]
    ensures exists k :: k in table.m && table.m[k] == minStops
    ensures lines == ReportOf(table.keys, table.m, maxStops, minStops)
  {
    var counts := Values(table);
    maxStops := MaxOf(counts);
    minStops := MinOf(counts);
    CountBounds(table);
    lines := ReportLines(table, maxStops, minStops);
  }

  /** The loop over `routes_stops_dict.items()`. */
  method ReportLines(table: Dict<nat>, hi: nat, lo: nat) returns (lines: seq<ReportLine>)
    requires table.Valid()
    ensures lines == ReportOf(table.keys, table.m, hi, lo)
  {
    lines := [];
    var i := 0;
    while i < |table.keys|
      invariant 0 <= i <= |table.keys|
      invariant lines == ReportOf(table.keys[..i], table.m, hi, lo)
    {
      var route := table.keys[i];
      var stops := table.m[route];
      var most: seq<ReportLine> := [];
      var fewest: seq<ReportLine> := [];
      if stops == hi {
        most := [Most(route, stops)];
      }
      if stops == lo {
        fewest := [Fewest(route, stops)];
      }
      ReportSnoc(table.keys, table.m, hi, lo, i);
      lines := lines + (most + fewest);
      i := i + 1;
    }
    assert table.keys[..|table.keys|] == table.keys;
  }

  lemma ReportSnoc(keys: seq<string>, m: map<string, nat>, hi: nat, lo: nat, i: nat)
    requires (forall k :: k in keys ==> k in m) && i < |keys|
    ensures ReportOf(keys[..i + 1], m, hi, lo) == ReportOf(keys[..i], m, hi, lo) + LinesFor(keys[i], m[keys[i]], hi, lo)
  {
    assert keys[..i + 1][..i] == keys[..i];
  }

  /** `max()` and `min()` of the table's values bound every count and are
      counts of some route. */
  lemma CountBounds(table: Dict<nat>)
    requires table.Valid() && |table.keys| > 0
    ensures forall k :: k in table.m ==> table.m[k] <= MaxOf(Values(table))
    ensures exists k :: k in table.m && table.m[k] == MaxOf(Values(table))
    ensures forall k :: k in table.m ==> MinOf(Values(table)) <= table.m[k]
    ensures exists k :: k in table.m && table.m[k] == MinOf(Values(table))
  {
    var vs := Values(table);
    forall k | k in table.m ensures table.m[k] in vs {
      var t :| 0 <= t < |table.keys| && table.keys[t] == k;
      assert vs[t] == table.m[k];
    }
    var t :| 0 <= t < |vs| && vs[t] == MaxOf(vs);
    assert table.keys[t] in table.m;
    var u :| 0 <= u < |vs| && vs[u] == MinOf(vs);
    assert table.keys[u] in table.m;
  }

  /** A route is reported as "most" exactly when its count is the maximum,
      and as "fewest" exactly when it is the minimum: every tie is
      reported. */
  lemma {:induction false} ReportMembership(keys: seq<string>, m: map<string, nat>, hi: nat, lo: nat)
    requires forall k :: k in keys ==> k in m
    ensures forall r, c :: Most(r, c) in ReportOf(keys, m, hi, lo) <==> r in keys && m[r] == hi && c == hi
    ensures forall r, c :: Fewest(r, c) in ReportOf(keys, m, hi, lo) <==> r in keys && m[r] == lo && c == lo
  {
    if keys != [] {
      var pre := keys[..|keys| - 1];
      var k := keys[|keys| - 1];
      ReportMembership(pre, m, hi, lo);
      assert forall r :: r in keys <==> r in pre || r == k;
    }
  }

  /** When every route has the same count (a single route, say), every
      route is reported both as "most" and as "fewest". */
  lemma AllTiedReportedBoth(table: Dict<nat>)
    requires table.Valid() && |table.keys| > 0
    requires forall k1, k2 :: k1 in table.m && k2 in table.m ==> table.m[k1] == table.m[k2]
    ensures var hi := MaxOf(Values(table));
      var lo := MinOf(Values(table));
      forall k :: k in table.m ==>
        Most(k, table.m[k]) in ReportOf(table.keys, table.m, hi, lo)
        && Fewest(k, table.m[k]) in ReportOf(table.keys, table.m, hi, lo)
  {
    var hi := MaxOf(Values(table));
    var lo := MinOf(Values(table));
    CountBounds(table);
    ReportMembership(table.keys, table.m, hi, lo);
  }

  /** Every line names a route of `keys`. */
  lemma {:induction false} ReportRoutesIn(keys: seq<string>, m: map<string, nat>, hi: nat, lo: nat)
    requires forall k :: k in keys ==> k in m
    ensures forall l :: l in ReportOf(keys, m, hi, lo) ==> l.route in keys
  {
    if keys != [] {
      ReportRoutesIn(keys[..|keys| - 1], m, hi, lo);
    }
  }

  /** The lines follow the table's order, and a route gets at most one
      "most" line followed by at most one "fewest" line. */
  lemma {:induction false} ReportOrder(keys: seq<string>, m: map<string, nat>, hi: nat, lo: nat, i: nat, j: nat)
    requires (forall k :: k in keys ==> k in m) && forall p, q :: 0 <= p < q < |keys| ==> keys[p] != keys[q]
    requires i < j < |ReportOf(keys, m, hi, lo)|
    ensures var lines := ReportOf(keys, m, hi, lo);
      && (exists p, q :: 0 <= p <= q < |keys| && keys[p] == lines[i].route && keys[q] == lines[j].route)
      && (lines[i].route == lines[j].route ==> lines[i].Most? && lines[j].Fewest?)
  {
    var pre := keys[..|keys| - 1];
    var k := keys[|keys| - 1];
    var before := ReportOf(pre, m, hi, lo);
    var last := LinesFor(k, m[k], hi, lo);
    var lines := ReportOf(keys, m, hi, lo);
    assert lines == before + last;
    if j < |before| {
      ReportOrder(pre, m, hi, lo, i, j);
      assert lines[i] == before[i] && lines[j] == before[j];
      var p, q :| 0 <= p <= q < |pre| && pre[p] == before[i].route && pre[q] == before[j].route;
      assert keys[p] == pre[p] && keys[q] == pre[q];
    } else if i < |before| {
      ReportRoutesIn(pre, m, hi, lo);
      assert lines[i] == before[i] && lines[j] == last[j - |before|];
      assert before[i] in before;
      var p :| 0 <= p < |pre| && pre[p] == before[i].route;
      assert keys[p] == lines[i].route && keys[|keys| - 1] == lines[j].route;
      assert lines[i].route != lines[j].route by {
        assert keys[p] != keys[|keys| - 1];
      }
    } else {
      assert lines[i] == last[i - |before|] && lines[j] == last[j - |before|];
      assert keys[|keys| - 1] == lines[i].route && keys[|keys| - 1] == lines[j].route;
    }
  }

}
