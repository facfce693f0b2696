/**
 * The transport-network store of include/Structures/TransportNetwork/TransportNetwork.h and
 * src/TransportNetwork.cpp: stations keyed by id, each with a passenger count and the routes
 * that serve it; lines keyed by id, admitted only when all their stops are known stations;
 * travel times keyed by the ordered pair of their end stations.
 *
 * The store is a value here. Every operation returns its `bool` (or its exception, as a
 * `Failure`) together with the new network. Stations, lines and routes are values, not
 * shared pointers, so a station's route list holds copies of the line's routes.
 */
module TransportNetwork {
  import opened Wrappers

  type LineId = string
  type RouteId = string
  type StationId = string
  type StationName = string

  /** `unsigned int`, the type of a travel time. */
  newtype uint32 = x: int | 0 <= x < 0x1_0000_0000

  /** `RouteDirection`, with the `kSizeOfEnum` sentinel after the real values. */
  datatype RouteDirection = Inbound | Outbound | SizeOfEnum

  /** `PassengerEvent::Type`, with the `kSizeOfEnum` sentinel after the real values. */
  datatype EventType = In | Out | SizeOfEnum

  datatype PassengerEvent = PassengerEvent(stationId: StationId, kind: EventType)

  /** `Route`; its `operator==` compares every field, which is value equality here. */
  datatype Route = Route(
    lineId: LineId,
    routeId: RouteId,
    direction: RouteDirection,
    startStationId: StationId,
    endStationId: StationId,
    stops: seq<StationId>)

  /** `Station`; constructed without a count it starts with no passengers and no routes. */
  datatype Station = Station(
    id: StationId,
    name: StationName,
    passengerCount: nat := 0,
    routes: seq<Route> := [])

  /**
   * `Line`. Its `operator==` compares the route pointers; here routes are values, so two
   * lines are equal when their routes are equal as values.
   */
  datatype Line = Line(id: LineId, name: string, routes: seq<Route>)

  /** `TravelTime`; only the two station ids are part of its key. */
  datatype TravelTime = TravelTime(
    startStationId: StationId,
    endStationId: StationId,
    lineId: LineId,
    routeId: RouteId,
    travelTime: uint32)

  /** `TransportNetwork`: the maps `m_lines` and `m_stations` and the container `m_travelTimes`. */
  datatype Network = Network(
    lines: map<LineId, Line>,
    stations: map<StationId, Station>,
    travelTimes: map<(StationId, StationId), TravelTime>)

  /** The exceptions `AddLine` throws. */
  datatype AddLineError = EmptyRoutes | UnknownStation(id: StationId)

  /** `Station::operator==`: same id and same name; routes and passenger count are ignored. */
  predicate SameStation(a: Station, b: Station)
  {
    a.id == b.id && a.name == b.name
  }

  /** No route occurs twice in the list. */
  predicate Distinct(routes: seq<Route>)
  {
    forall i, j :: 0 <= i < j < |routes| ==> routes[i] != routes[j]
  }

  /** `b` is `a` with possibly more routes appended: same identity, same count, same prefix. */
  predicate Extends(a: Station, b: Station)
  {
    && b.id == a.id && b.name == a.name && b.passengerCount == a.passengerCount
    && |a.routes| <= |b.routes| && b.routes[..|a.routes|] == a.routes
  }

  /** Every stop of every route is a station that lists the route as serving it. */
  ghost predicate ServesRoutes(stations: map<StationId, Station>, routes: seq<Route>)
  {
    forall i, j :: 0 <= i < |routes| && 0 <= j < |routes[i].stops| ==>
      routes[i].stops[j] in stations && routes[i] in stations[routes[i].stops[j]].routes
  }

  /** Every stop of every route of `line` is a station that lists the route as serving it. */
  ghost predicate Serves(stations: map<StationId, Station>, line: Line)
  {
    ServesRoutes(stations, line.routes)
  }

  /** `after` holds the same stations as `before`, each possibly with routes appended. */
  ghost predicate KeepsStations(before: map<StationId, Station>, after: map<StationId, Station>)
  {
    after.Keys == before.Keys && forall id :: id in before ==> Extends(before[id], after[id])
  }

  /** A station's list gains only routes of `routes` that stop at that station. */
  ghost predicate AddsOnly(before: map<StationId, Station>, after: map<StationId, Station>, routes: seq<Route>)
  {
    forall id, rt :: id in before && id in after && rt in after[id].routes ==>
      rt in before[id].routes || (rt in routes && id in rt.stops)
  }

  /** A station whose list had no duplicate still has none. */
  ghost predicate KeepsDistinct(before: map<StationId, Station>, after: map<StationId, Station>)
  {
    forall id :: id in before && id in after && Distinct(before[id].routes) ==> Distinct(after[id].routes)
  }

  /**
   * What every operation keeps true of the store: each station and line is stored under its
   * own id, each travel time under its own ordered pair of distinct stations, and every stop
   * of every stored line's routes is a station served by that route.
   */
  ghost predicate Valid(n: Network)
  {
    && (forall id :: id in n.stations ==> n.stations[id].id == id)
    && (forall id :: id in n.lines ==> n.lines[id].id == id && Serves(n.stations, n.lines[id]))
    && (forall k :: k in n.travelTimes ==>
          k.0 != k.1 && n.travelTimes[k].startStationId == k.0 && n.travelTimes[k].endStationId == k.1)
  }

  /** The empty network. */
  function EmptyNetwork(): (n: Network)
    ensures Valid(n) && n.stations == map[] && n.lines == map[] && n.travelTimes == map[]
  {
    Network(map[], map[], map[])
  }

  /**
   * `Station::RecordPassengerEvent`: `In` adds a passenger, `Out` removes one if there is
   * one, and the sentinel type is rejected. A rejected event changes nothing, and no event
   * touches the station's identity or routes.
   */
  function RecordStationEvent(s: Station, kind: EventType): (r: (bool, Station))
    ensures r.0 <==> kind == In || (kind == Out && s.passengerCount > 0)
    ensures !r.0 ==> r.1 == s
    ensures r.1.id == s.id && r.1.name == s.name && r.1.routes == s.routes
    ensures r.0 && kind == In ==> r.1.passengerCount == s.passengerCount + 1
    ensures r.0 && kind == Out ==> r.1.passengerCount + 1 == s.passengerCount
  {
    match kind
    case In => (true, s.(passengerCount := s.passengerCount + 1))
    case Out =>
      if s.passengerCount == 0 then (false, s)
      else (true, s.(passengerCount := s.passengerCount - 1))
    case SizeOfEnum => (false, s)
  }

  /**
   * `Station::AddRoute`: appends the route unless a value-equal route is already listed.
   * The list keeps its order and never gains a duplicate.
   */
  function AddRoute(s: Station, route: Route): (r: (bool, Station))
    ensures r.0 <==> route !in s.routes
    ensures route in r.1.routes && Extends(s, r.1)
    ensures forall rt :: rt in r.1.routes ==> rt in s.routes || rt == route
    ensures |r.1.routes| == |s.routes| + (if r.0 then 1 else 0)
    ensures Distinct(s.routes) ==> Distinct(r.1.routes)
  {
    if route in s.routes then (false, s)
    else (true, s.(routes := s.routes + [route]))
  }

  /** `Station::GetRoutes`. */
  function GetRoutes(s: Station): seq<Route>
  {
    s.routes
  }

  /** Extending is transitive, and an extension keeps every route of the original. */
  lemma ExtendsTrans(a: Station, b: Station, c: Station)
    requires Extends(a, b) && Extends(b, c)
    ensures Extends(a, c)
    ensures forall rt :: rt in a.routes ==> rt in c.routes
  {
    assert c.routes[..|a.routes|] == c.routes[..|b.routes|][..|a.routes|];
    forall rt | rt in a.routes
      ensures rt in c.routes
    {
      var i :| 0 <= i < |a.routes| && a.routes[i] == rt;
      assert c.routes[i] == rt;
    }
  }

  /** An extension keeps every route of the original. */
  lemma ExtendsKeeps(a: Station, b: Station, rt: Route)
    requires Extends(a, b) && rt in a.routes
    ensures rt in b.routes
  {
    var i :| 0 <= i < |a.routes| && a.routes[i] == rt;
    assert b.routes[i] == rt;
  }

  /** `TransportNetwork::AddStation`: stores the station unless its id is already taken. */
  function AddStation(n: Network, s: Station): (r: (bool, Network))
    requires s.id != "" && s.name != ""
    ensures r.0 <==> s.id !in n.stations
    ensures r.1.stations == if r.0 then n.stations[s.id := s] else n.stations
    ensures r.1.lines == n.lines && r.1.travelTimes == n.travelTimes
    ensures Valid(n) ==> Valid(r.1)
  {
    if s.id in n.stations then (false, n)
    else (true, n.(stations := n.stations[s.id := s]))
  }

  /** `TransportNetwork::GetStation`: the station stored under the id, or none. */
  function GetStation(n: Network, id: StationId): (r: Option<Station>)
    requires id != ""
    ensures r.Some? <==> id in n.stations
    ensures r.Some? && Valid(n) ==> r.value.id == id
  {
    if id in n.stations then Some(n.stations[id]) else None
  }

  /** Every stop of every route is a known station. */
  predicate StopsKnown(stations: map<StationId, Station>, routes: seq<Route>)
  {
    forall i, j :: 0 <= i < |routes| && 0 <= j < |routes[i].stops| ==> routes[i].stops[j] in stations
  }

  /** No stop of any route is the empty id (`GetStation` asserts this of each stop). */
  predicate StopsNamed(routes: seq<Route>)
  {
    forall i, j :: 0 <= i < |routes| && 0 <= j < |routes[i].stops| ==> routes[i].stops[j] != ""
  }

  /**
   * The stop at `(i, j)` is one the validation loop of `AddLine` looks up: every stop before
   * it, in route order and then stop order, is a known station.
   */
  predicate Checked(stations: map<StationId, Station>, routes: seq<Route>, i: nat, j: nat)
    requires i < |routes| && j < |routes[i].stops|
  {
    StopsKnown(stations, routes[..i]) && forall k :: 0 <= k < j ==> routes[i].stops[k] in stations
  }

  /**
   * No stop the validation loop looks up is the empty id (`GetStation` asserts this of each
   * stop it is given); stops after the first unknown one are never looked up.
   */
  predicate CheckedStopsNamed(stations: map<StationId, Station>, routes: seq<Route>)
  {
    forall i, j :: 0 <= i < |routes| && 0 <= j < |routes[i].stops| && Checked(stations, routes, i, j) ==>
      routes[i].stops[j] != ""
  }

  /** The first stop of `stops`, in order, that is not a known station. */
  function FirstUnknownIn(stations: map<StationId, Station>, stops: seq<StationId>): (r: Option<nat>)
    decreases |stops|
    ensures r.None? <==> forall j :: 0 <= j < |stops| ==> stops[j] in stations
    ensures r.Some? ==> r.value < |stops| && stops[r.value] !in stations
    ensures r.Some? ==> forall j :: 0 <= j < r.value ==> stops[j] in stations
  {
    if |stops| == 0 then None
    else if stops[0] !in stations then Some(0)
    else
      match FirstUnknownIn(stations, stops[1..])
      case None => None
      case Some(j) => Some(j + 1)
  }

  /**
   * The validation loop of `AddLine`: the first stop, in route order and then stop order,
   * that is not a known station.
   */
  function FirstUnknownStop(stations: map<StationId, Station>, routes: seq<Route>): (r: Option<StationId>)
    decreases |routes|
    ensures r.None? <==> StopsKnown(stations, routes)
    ensures r.Some? ==> r.value !in stations
    ensures r.Some? ==> exists i, j ::
      && 0 <= i < |routes| && 0 <= j < |routes[i].stops| && routes[i].stops[j] == r.value
      && StopsKnown(stations, routes[..i])
      && (forall j' :: 0 <= j' < j ==> routes[i].stops[j'] in stations)
  {
    if |routes| == 0 then None
    else
      match FirstUnknownIn(stations, routes[0].stops)
      case Some(j) =>
        assert StopsKnown(stations, routes[..0]);
        Some(routes[0].stops[j])
      case None =>
        var rest := FirstUnknownStop(stations, routes[1..]);
        FirstUnknownStopStep(stations, routes, rest);
        rest
  }

  /** The inductive step of `FirstUnknownStop`: a fully known first route shifts the witness. */
  lemma FirstUnknownStopStep(stations: map<StationId, Station>, routes: seq<Route>, rest: Option<StationId>)
    requires |routes| > 0 && forall j :: 0 <= j < |routes[0].stops| ==> routes[0].stops[j] in stations
    requires rest.None? <==> StopsKnown(stations, routes[1..])
    requires rest.Some? ==> exists i, j ::
      && 0 <= i < |routes[1..]| && 0 <= j < |routes[1..][i].stops| && routes[1..][i].stops[j] == rest.value
      && StopsKnown(stations, routes[1..][..i])
      && (forall j' :: 0 <= j' < j ==> routes[1..][i].stops[j'] in stations)
    ensures rest.None? <==> StopsKnown(stations, routes)
    ensures rest.Some? ==> exists i, j ::
      && 0 <= i < |routes| && 0 <= j < |routes[i].stops| && routes[i].stops[j] == rest.value
      && StopsKnown(stations, routes[..i])
      && (forall j' :: 0 <= j' < j ==> routes[i].stops[j'] in stations)
  {
    if StopsKnown(stations, routes[1..]) {
      forall i, j | 0 <= i < |routes| && 0 <= j < |routes[i].stops|
        ensures routes[i].stops[j] in stations
      {
        if i > 0 {
          assert routes[i] == routes[1..][i - 1];
        }
      }
    } else {
      var i, j :| && 0 <= i < |routes[1..]| && 0 <= j < |routes[1..][i].stops|
        && routes[1..][i].stops[j] == rest.value
        && StopsKnown(stations, routes[1..][..i])
        && (forall j' :: 0 <= j' < j ==> routes[1..][i].stops[j'] in stations);
      assert routes[1..][i] == routes[i + 1];
      var pre := routes[..i + 1];
      forall k, j' | 0 <= k < |pre| && 0 <= j' < |pre[k].stops|
        ensures pre[k].stops[j'] in stations
      {
        if k > 0 {
          assert pre[k] == routes[1..][..i][k - 1];
        }
      }
      assert !StopsKnown(stations, routes);
    }
  }

  /** The inner attaching loop of `AddLine` for one route: each stop in turn gets the route. */
  function AttachStops(stations: map<StationId, Station>, route: Route, stops: seq<StationId>)
    : (r: map<StationId, Station>)
    requires forall j :: 0 <= j < |stops| ==> stops[j] in stations
    decreases |stops|
    ensures KeepsStations(stations, r) && KeepsDistinct(stations, r)
    ensures forall j :: 0 <= j < |stops| ==> route in r[stops[j]].routes
    ensures forall id, rt :: id in stations && rt in r[id].routes ==>
      rt in stations[id].routes || (rt == route && id in stops)
  {
    if |stops| == 0 then stations
    else
      var s := stops[0];
      var next := stations[s := AddRoute(stations[s], route).1];
      var r := AttachStops(next, route, stops[1..]);
      AttachStopsStep(stations, route, stops, next, r);
      r
  }

  /** The inductive step of `AttachStops`: the first stop's update composes with the rest. */
  lemma AttachStopsStep(
    stations: map<StationId, Station>, route: Route, stops: seq<StationId>,
    next: map<StationId, Station>, r: map<StationId, Station>)
    requires |stops| > 0 && forall j :: 0 <= j < |stops| ==> stops[j] in stations
    requires next == stations[stops[0] := AddRoute(stations[stops[0]], route).1]
    requires KeepsStations(next, r) && KeepsDistinct(next, r)
    requires forall j :: 0 <= j < |stops[1..]| ==> route in r[stops[1..][j]].routes
    requires forall id, rt :: id in next && rt in r[id].routes ==>
      rt in next[id].routes || (rt == route && id in stops[1..])
    ensures KeepsStations(stations, r) && KeepsDistinct(stations, r)
    ensures forall j :: 0 <= j < |stops| ==> route in r[stops[j]].routes
    ensures forall id, rt :: id in stations && rt in r[id].routes ==>
      rt in stations[id].routes || (rt == route && id in stops)
  {
    forall id | id in stations
      ensures Extends(stations[id], r[id])
    {
      ExtendsTrans(stations[id], next[id], r[id]);
    }
    ExtendsKeeps(next[stops[0]], r[stops[0]], route);
    forall j | 0 <= j < |stops|
      ensures route in r[stops[j]].routes
    {
      if j > 0 {
        assert stops[j] == stops[1..][j - 1];
      }
    }
    forall id, rt | id in stations && rt in r[id].routes
      ensures rt in stations[id].routes || (rt == route && id in stops)
    {
      if rt in next[id].routes && id == stops[0] {
        assert rt in stations[id].routes || rt == route;
      }
    }
  }

  /** After attaching the first route, the other routes' stops are still known stations. */
  lemma StopsStillKnown(stations: map<StationId, Station>, next: map<StationId, Station>, routes: seq<Route>)
    requires |routes| > 0 && StopsKnown(stations, routes) && next.Keys == stations.Keys
    ensures StopsKnown(next, routes[1..])
  {
    forall i, j | 0 <= i < |routes[1..]| && 0 <= j < |routes[1..][i].stops|
      ensures routes[1..][i].stops[j] in next
    {
      assert routes[1..][i] == routes[i + 1];
    }
  }

  /** The attaching loop of `AddLine`: each route in turn is attached to each of its stops. */
  function AttachRoutes(stations: map<StationId, Station>, routes: seq<Route>): (r: map<StationId, Station>)
    requires StopsKnown(stations, routes)
    decreases |routes|
    ensures KeepsStations(stations, r) && KeepsDistinct(stations, r)
    ensures ServesRoutes(r, routes) && AddsOnly(stations, r, routes)
  {
    if |routes| == 0 then stations
    else
      var next := AttachStops(stations, routes[0], routes[0].stops);
      StopsStillKnown(stations, next, routes);
      var r := AttachRoutes(next, routes[1..]);
      AttachRoutesKeeps(stations, next, r);
      AttachRoutesServes(routes, next, r);
      AttachRoutesAddsOnly(stations, routes, next, r);
      r
  }

  /** The inductive step of `AttachRoutes`: the stations are kept, each with its list extended. */
  lemma AttachRoutesKeeps(
    stations: map<StationId, Station>, next: map<StationId, Station>, r: map<StationId, Station>)
    requires KeepsStations(stations, next) && KeepsDistinct(stations, next)
    requires KeepsStations(next, r) && KeepsDistinct(next, r)
    ensures KeepsStations(stations, r) && KeepsDistinct(stations, r)
  {
    forall id | id in stations
      ensures Extends(stations[id], r[id])
    {
      ExtendsTrans(stations[id], next[id], r[id]);
    }
  }

  /** The inductive step of `AttachRoutes`: the first route and the rest all serve their stops. */
  lemma AttachRoutesServes(routes: seq<Route>, next: map<StationId, Station>, r: map<StationId, Station>)
    requires |routes| > 0
    requires forall j :: 0 <= j < |routes[0].stops| ==>
      routes[0].stops[j] in next && routes[0] in next[routes[0].stops[j]].routes
    requires KeepsStations(next, r) && ServesRoutes(r, routes[1..])
    ensures ServesRoutes(r, routes)
  {
    forall i, j | 0 <= i < |routes| && 0 <= j < |routes[i].stops|
      ensures routes[i].stops[j] in r && routes[i] in r[routes[i].stops[j]].routes
    {
      if i == 0 {
        ExtendsKeeps(next[routes[0].stops[j]], r[routes[0].stops[j]], routes[0]);
      } else {
        assert routes[i] == routes[1..][i - 1];
      }
    }
  }

  /** The inductive step of `AttachRoutes`: every route gained is one of `routes` at its stop. */
  lemma AttachRoutesAddsOnly(
    stations: map<StationId, Station>, routes: seq<Route>,
    next: map<StationId, Station>, r: map<StationId, Station>)
    requires |routes| > 0 && next.Keys == stations.Keys
    requires forall id, rt :: id in stations && rt in next[id].routes ==>
      rt in stations[id].routes || (rt == routes[0] && id in routes[0].stops)
    requires AddsOnly(next, r, routes[1..])
    ensures AddsOnly(stations, r, routes)
  {
    forall id, rt | id in stations && id in r && rt in r[id].routes
      ensures rt in stations[id].routes || (rt in routes && id in rt.stops)
    {
      if rt in routes[1..] {
        var k :| 0 <= k < |routes[1..]| && routes[1..][k] == rt;
        assert routes[k + 1] == rt;
      } else {
        assert routes[0] in routes;
      }
    }
  }

  /**
   * `TransportNetwork::AddLine`. A line without routes, or with a stop that is not a known
   * station, throws before anything changes. Otherwise every stop of every route gets the
   * route, and then the line is stored unless its id is taken, in which case the call
   * returns false but the stations keep the routes they were just given.
   */
  function AddLine(n: Network, line: Line): (r: Result<(bool, Network), AddLineError>)
    requires CheckedStopsNamed(n.stations, line.routes)
    ensures |line.routes| == 0 ==> r == Failure(EmptyRoutes)
    ensures r.Failure? <==> |line.routes| == 0 || !StopsKnown(n.stations, line.routes)
    ensures r.Failure? && |line.routes| > 0 ==> r.error.UnknownStation? && r.error.id !in n.stations
    ensures r.Failure? && |line.routes| > 0 ==> exists i, j ::
      && 0 <= i < |line.routes| && 0 <= j < |line.routes[i].stops|
      && line.routes[i].stops[j] == r.error.id && Checked(n.stations, line.routes, i, j)
    ensures r.Success? ==> StopsNamed(line.routes)
    ensures r.Success? ==> (r.value.0 <==> line.id !in n.lines)
    ensures r.Success? ==> r.value.1.lines == if r.value.0 then n.lines[line.id := line] else n.lines
    ensures r.Success? ==> r.value.1.travelTimes == n.travelTimes
    ensures r.Success? ==> Serves(r.value.1.stations, line)
    ensures r.Success? ==> KeepsStations(n.stations, r.value.1.stations)
    ensures r.Success? ==> AddsOnly(n.stations, r.value.1.stations, line.routes)
    ensures r.Success? ==> KeepsDistinct(n.stations, r.value.1.stations)
    ensures r.Success? && Valid(n) ==> Valid(r.value.1)
  {
    if |line.routes| == 0 then Failure(EmptyRoutes)
    else
      match FirstUnknownStop(n.stations, line.routes)
      case Some(id) => Failure(UnknownStation(id))
      case None =>
        assert StopsNamed(line.routes) by {
          KnownStopsChecked(n.stations, line.routes);
        }
        var stations := AttachRoutes(n.stations, line.routes);
        var added := line.id !in n.lines;
        var lines := if added then n.lines[line.id := line] else n.lines;
        var r := Network(lines, stations, n.travelTimes);
        AddLineKeepsValid(n, line, r);
        Success((added, r))
  }

  /** When every stop is known, the validation loop looks up every stop. */
  lemma KnownStopsChecked(stations: map<StationId, Station>, routes: seq<Route>)
    requires StopsKnown(stations, routes)
    ensures forall i, j :: 0 <= i < |routes| && 0 <= j < |routes[i].stops| ==> Checked(stations, routes, i, j)
  {
    forall i, j | 0 <= i < |routes| && 0 <= j < |routes[i].stops|
      ensures Checked(stations, routes, i, j)
    {
      forall k, l | 0 <= k < i && 0 <= l < |routes[..i][k].stops|
        ensures routes[..i][k].stops[l] in stations
      {
        assert routes[..i][k] == routes[k];
      }
    }
  }

  /** Attaching routes only extends stations, so the stored lines stay served. */
  lemma AddLineKeepsValid(n: Network, line: Line, r: Network)
    requires KeepsStations(n.stations, r.stations)
    requires Serves(r.stations, line)
    requires r.lines == n.lines || r.lines == n.lines[line.id := line]
    requires r.travelTimes == n.travelTimes
    ensures Valid(n) ==> Valid(r)
  {
    if Valid(n) {
      forall id | id in r.stations
        ensures r.stations[id].id == id
      {
      }
      forall id | id in r.lines
        ensures r.lines[id].id == id && Serves(r.stations, r.lines[id])
      {
        if id != line.id || r.lines == n.lines {
          var l := n.lines[id];
          forall i, j | 0 <= i < |l.routes| && 0 <= j < |l.routes[i].stops|
            ensures l.routes[i].stops[j] in r.stations && l.routes[i] in r.stations[l.routes[i].stops[j]].routes
          {
            var s := l.routes[i].stops[j];
            ExtendsKeeps(n.stations[s], r.stations[s], l.routes[i]);
          }
        }
      }
    }
  }

  /** `TransportNetwork::GetLine`: the line stored under the id, or none. */
  function GetLine(n: Network, id: LineId): (r: Option<Line>)
    requires id != ""
    ensures r.Some? <==> id in n.lines
    ensures r.Some? && Valid(n) ==> r.value.id == id
  {
    if id in n.lines then Some(n.lines[id]) else None
  }

  /**
   * `TransportNetwork::RecordPassengerEvent`: the event of a known station is recorded
   * there; an unknown station rejects it. A rejected event changes nothing.
   */
  function RecordPassengerEvent(n: Network, event: PassengerEvent): (r: (bool, Network))
    requires event.stationId != ""
    ensures r.1.lines == n.lines && r.1.travelTimes == n.travelTimes && r.1.stations.Keys == n.stations.Keys
    ensures r.0 <==> (event.stationId in n.stations &&
      (event.kind == In || (event.kind == Out && n.stations[event.stationId].passengerCount > 0)))
    ensures event.stationId in n.stations ==>
      r.1.stations[event.stationId] == RecordStationEvent(n.stations[event.stationId], event.kind).1
    ensures !r.0 ==> r.1 == n
    ensures forall id :: id in n.stations && id != event.stationId ==> r.1.stations[id] == n.stations[id]
    ensures Valid(n) ==> Valid(r.1)
  {
    var id := event.stationId;
    if id in n.stations then
      var (ok, s) := RecordStationEvent(n.stations[id], event.kind);
      var r := (ok, n.(stations := n.stations[id := s]));
      assert ok ==> Valid(n) ==> Valid(r.1) by {
        if ok && Valid(n) {
          forall lid | lid in r.1.lines
            ensures Serves(r.1.stations, r.1.lines[lid])
          {
            assert Serves(n.stations, n.lines[lid]);
          }
        }
      }
      assert !ok ==> n.stations[id := s] == n.stations;
      r
    else (false, n)
  }

  /** `TransportNetwork::GetPassengerCount`: the station's count, or 0 for an unknown station. */
  function GetPassengerCount(n: Network, id: StationId): nat
    requires id != ""
  {
    if id in n.stations then n.stations[id].passengerCount else 0
  }

  /** `TransportNetwork::GetRoutesServingStation`: the station's routes, or none for an unknown station. */
  function GetRoutesServingStation(n: Network, id: StationId): seq<Route>
    requires id != ""
  {
    if id in n.stations then GetRoutes(n.stations[id]) else []
  }

  /**
   * `TransportNetwork::SetTravelTime`: stores the time for the ordered pair unless the two
   * stations are the same or the pair already has a time; the line and route are left empty.
   */
  function SetTravelTime(n: Network, start: StationId, end: StationId, travelTime: uint32): (r: (bool, Network))
    requires start != "" && end != ""
    ensures r.0 <==> start != end && (start, end) !in n.travelTimes
    ensures !r.0 ==> r.1 == n
    ensures r.1.lines == n.lines && r.1.stations == n.stations
    ensures r.0 ==> r.1.travelTimes == n.travelTimes[(start, end) := TravelTime(start, end, "", "", travelTime)]
    ensures Valid(n) ==> Valid(r.1)
  {
    if start == end then (false, n)
    else if (start, end) in n.travelTimes then (false, n)
    else (true, n.(travelTimes := n.travelTimes[(start, end) := TravelTime(start, end, "", "", travelTime)]))
  }

  /** `TransportNetwork::GetTravelTime`: the time stored for exactly this ordered pair, or 0. */
  function GetTravelTime(n: Network, start: StationId, end: StationId): uint32
    requires start != "" && end != ""
  {
    if (start, end) in n.travelTimes then n.travelTimes[(start, end)].travelTime else 0
  }
}

/** How the store's operations relate to each other. */
module TransportNetworkProperties {
  import opened Wrappers
  import opened TransportNetwork

  /** A passenger who comes in and goes out again leaves the station as it was. */
  lemma InThenOutRestores(s: Station)
    ensures RecordStationEvent(RecordStationEvent(s, In).1, Out) == (true, s)
  {
  }

  /** A passenger who goes out of a non-empty station and comes back leaves it as it was. */
  lemma OutThenInRestores(s: Station)
    requires s.passengerCount > 0
    ensures RecordStationEvent(RecordStationEvent(s, Out).1, In) == (true, s)
  {
  }

  /** Passenger events change neither a station's identity nor its routes. */
  lemma EventsKeepStationIdentity(s: Station, kind: EventType, rt: Route)
    ensures SameStation(s, RecordStationEvent(s, kind).1)
    ensures SameStation(s, AddRoute(s, rt).1)
  {
  }

  /**
   * The count `GetPassengerCount` reports after a network-level event: one more after an
   * accepted `In`, one fewer after an accepted `Out`, unchanged otherwise; the other
   * stations' counts never change.
   */
  lemma CountAfterEvent(n: Network, event: PassengerEvent, other: StationId)
    requires event.stationId != "" && other != ""
    ensures var (ok, after) := RecordPassengerEvent(n, event);
      && GetPassengerCount(after, event.stationId) ==
           (if ok && event.kind == In then GetPassengerCount(n, event.stationId) + 1
            else if ok then GetPassengerCount(n, event.stationId) - 1
            else GetPassengerCount(n, event.stationId))
      && (other != event.stationId ==> GetPassengerCount(after, other) == GetPassengerCount(n, other))
  {
  }

  /** An event of the sentinel type is rejected and changes nothing. */
  lemma SentinelEventRejected(n: Network, id: StationId)
    requires id != ""
    ensures RecordPassengerEvent(n, PassengerEvent(id, EventType.SizeOfEnum)) == (false, n)
  {
  }

  /**
   * An unknown station rejects every event without any change, has no passengers and is
   * served by no route.
   */
  lemma UnknownStationIsInert(n: Network, id: StationId, kind: EventType)
    requires id != "" && id !in n.stations
    ensures RecordPassengerEvent(n, PassengerEvent(id, kind)) == (false, n)
    ensures GetPassengerCount(n, id) == 0
    ensures GetRoutesServingStation(n, id) == []
  {
  }

  /** After `AddStation`, the id holds the new station if it was free and the old one if not. */
  lemma AddStationThenGet(n: Network, s: Station)
    requires s.id != "" && s.name != ""
    ensures GetStation(AddStation(n, s).1, s.id) ==
      Some(if s.id in n.stations then n.stations[s.id] else s)
  {
  }

  /**
   * The duplicate-station scenario: a second station with the same id and another name is
   * refused, and the stored station is still the first one, which the second is not equal to.
   */
  lemma DuplicateStationKeepsFirst()
    ensures var st1 := Station("station_001", "Bagramyan");
      var st2 := Station("station_001", "Yeritasardakan");
      var (ok1, n1) := AddStation(EmptyNetwork(), st1);
      var (ok2, n2) := AddStation(n1, st2);
      && ok1 && !ok2
      && GetStation(n2, "station_001") == Some(st1)
      && SameStation(st1, GetStation(n2, "station_001").value)
      && !SameStation(st2, GetStation(n2, "station_001").value)
  {
  }

  /**
   * The passenger-count scenario: three `In` events at a fresh station give 3 while a
   * neighbour stays at 0, and two `Out` events then leave 1.
   */
  lemma PassengerCountScenario()
    ensures var (_, n1) := AddStation(EmptyNetwork(), Station("station_001", "Bagramyan"));
      var (_, n2) := AddStation(n1, Station("station_002", "Yeritasardakan"));
      var inEv := PassengerEvent("station_001", In);
      var outEv := PassengerEvent("station_001", Out);
      var (a, n3) := RecordPassengerEvent(n2, inEv);
      var (b, n4) := RecordPassengerEvent(n3, inEv);
      var (c, n5) := RecordPassengerEvent(n4, inEv);
      var (d, n6) := RecordPassengerEvent(n5, outEv);
      var (e, n7) := RecordPassengerEvent(n6, outEv);
      && a && b && c && d && e
      && GetPassengerCount(n2, "station_001") == 0
      && GetPassengerCount(n5, "station_001") == 3
      && GetPassengerCount(n5, "station_002") == 0
      && GetPassengerCount(n7, "station_001") == 1
  {
  }

  /**
   * After `AddLine` succeeds, every stop of every route of the line is served by that route,
   * the line is stored if its id was free, and the previously stored line is kept if not.
   */
  lemma AddLineThenQuery(n: Network, line: Line)
    requires CheckedStopsNamed(n.stations, line.routes) && line.id != ""
    requires AddLine(n, line).Success?
    ensures forall i, j :: 0 <= i < |line.routes| && 0 <= j < |line.routes[i].stops| ==>
      line.routes[i] in GetRoutesServingStation(AddLine(n, line).value.1, line.routes[i].stops[j])
    ensures GetLine(AddLine(n, line).value.1, line.id) ==
      Some(if line.id in n.lines then n.lines[line.id] else line)
  {
    var after := AddLine(n, line).value.1;
    assert Serves(after.stations, line);
    forall i, j | 0 <= i < |line.routes| && 0 <= j < |line.routes[i].stops|
      ensures line.routes[i] in GetRoutesServingStation(after, line.routes[i].stops[j])
    {
      assert line.routes[i].stops[j] != "";
    }
  }

  /**
   * The happy-path scenario: a station with no routes that a one-route line stops at is
   * then served by exactly that route.
   */
  lemma FreshStationServedByOneRoute(n: Network, rt: Route, line: Line, id: StationId)
    requires line.routes == [rt] && CheckedStopsNamed(n.stations, line.routes)
    requires id in n.stations && n.stations[id].routes == [] && id in rt.stops
    requires AddLine(n, line).Success?
    ensures GetRoutesServingStation(AddLine(n, line).value.1, id) == [rt]
  {
    var before := n.stations;
    var after := AddLine(n, line).value.1.stations;
    var k :| 0 <= k < |rt.stops| && rt.stops[k] == id;
    assert ServesRoutes(after, line.routes);
    assert line.routes[0].stops[k] == id;
    assert KeepsDistinct(before, after) && AddsOnly(before, after, line.routes);
    SingleRouteList(after[id].routes, rt);
  }

  /** A duplicate-free list holding `rt` and nothing else is `[rt]`. */
  lemma SingleRouteList(rs: seq<Route>, rt: Route)
    requires Distinct(rs) && rt in rs && forall x :: x in rs ==> x == rt
    ensures rs == [rt]
  {
    forall i | 0 <= i < |rs|
      ensures rs[i] == rt
    {
      assert rs[i] in rs;
    }
    RepeatsAreNotDistinct(rs, rt);
  }

  /** A list of two or more copies of one route is not duplicate-free. */
  lemma RepeatsAreNotDistinct(rs: seq<Route>, rt: Route)
    requires forall i :: 0 <= i < |rs| ==> rs[i] == rt
    ensures |rs| >= 2 ==> !Distinct(rs)
  {
    if |rs| >= 2 {
      assert rs[0] == rs[1];
    }
  }

  /**
   * `GetTravelTime` after `SetTravelTime`: the new time is seen only for exactly the ordered
   * pair that was set, and only when the call succeeded; every other pair, the reversed
   * pair included, reads as before.
   */
  lemma SetThenGetTravelTime(n: Network, a: StationId, b: StationId, t: uint32, c: StationId, d: StationId)
    requires a != "" && b != "" && c != "" && d != ""
    ensures GetTravelTime(SetTravelTime(n, a, b, t).1, c, d) ==
      if SetTravelTime(n, a, b, t).0 && (c, d) == (a, b) then t else GetTravelTime(n, c, d)
  {
  }

  /** Setting the time of a pair a second time fails and keeps the first time. */
  lemma FirstTravelTimeKept(n: Network, a: StationId, b: StationId, t1: uint32, t2: uint32)
    requires a != "" && b != "" && a != b && (a, b) !in n.travelTimes
    ensures var (ok1, n1) := SetTravelTime(n, a, b, t1);
      var (ok2, n2) := SetTravelTime(n1, a, b, t2);
      ok1 && !ok2 && GetTravelTime(n2, a, b) == t1
  {
  }

  /** Setting a time in one direction says nothing about the other direction. */
  lemma TravelTimeIsDirectional(a: StationId, b: StationId, t: uint32)
    requires a != "" && b != "" && a != b && t != 0
    ensures var n1 := SetTravelTime(EmptyNetwork(), a, b, t).1;
      GetTravelTime(n1, a, b) == t && GetTravelTime(n1, b, a) == 0
  {
  }
}
