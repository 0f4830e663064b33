/** `process_route_request` of the three API copies: the planner's result reshaped for the web front end,
    and `get_optimal_charging_time`, the figure shown next to a vehicle. */
module Response {
  import opened Wrappers
  import opened Geo
  import opened Distance
  import opened Charges
  import opened Planner

  /** A coordinate as the map front end (Leaflet) wants it: latitude first. */
  datatype LatLng = LatLng(lat: real, lng: real)

  /** The swap `[coord[1], coord[0]]` of one route point. */
  function ToLatLng(p: Point): LatLng {
    LatLng(p.lat, p.lon)
  }

  /** The swap back, from latitude-first to longitude-first. */
  function FromLatLng(c: LatLng): Point {
    Point(c.lng, c.lat)
  }

  /** `formatted_route`: one swapped coordinate per route point, in order. */
  function FormatRoute(route: seq<Point>): (formatted: seq<LatLng>)
    ensures |formatted| == |route|
    ensures forall i :: 0 <= i < |route| ==> formatted[i].lat == route[i].lat && formatted[i].lng == route[i].lon
  {
    if route == [] then [] else [ToLatLng(route[0])] + FormatRoute(route[1..])
  }

  /** Reading the formatted route back with the inverse swap. */
  function UnformatRoute(formatted: seq<LatLng>): (route: seq<Point>)
    ensures |route| == |formatted|
  {
    if formatted == [] then [] else [FromLatLng(formatted[0])] + UnformatRoute(formatted[1..])
  }

  /** Swapping twice gives back the original pairs, whichever side one starts from. */
  lemma {:induction false} SwapRoundTrip(route: seq<Point>, formatted: seq<LatLng>)
    ensures UnformatRoute(FormatRoute(route)) == route
    ensures FormatRoute(UnformatRoute(formatted)) == formatted
    decreases |route| + |formatted|
  {
    if route != [] {
      SwapRoundTrip(route[1..], formatted);
    }
    if formatted != [] {
      SwapRoundTrip(route, formatted[1..]);
    }
  }

  /** The name shown for a station whose record carries none. */
  const DefaultStationName: string := "Station de recharge"

  /** A station as sent to the front end: name and address filled with defaults. */
  datatype FormattedStation = FormattedStation(lat: real, lon: real, name: string, address: string)

  /** `station.get('name', 'Station de recharge')`, `station.get('address', '')`. */
  function FormatStation(s: Station): (f: FormattedStation)
    ensures f.lat == s.lat && f.lon == s.lon
    ensures f.name == (if s.name.Some? then s.name.value else DefaultStationName)
    ensures f.address == (if s.address.Some? then s.address.value else "")
  {
    FormattedStation(s.lat, s.lon, s.name.GetOr(DefaultStationName), s.address.GetOr(""))
  }

  /** `formatted_stations`: one formatted entry per stop, in the same order. */
  function FormatStations(stations: seq<Station>): (formatted: seq<FormattedStation>)
    ensures |formatted| == |stations|
    ensures forall i :: 0 <= i < |stations| ==> formatted[i] == FormatStation(stations[i])
  {
    if stations == [] then [] else [FormatStation(stations[0])] + FormatStations(stations[1..])
  }

  /** A start or end marker: the geocoded position and the city name as typed. */
  datatype Endpoint = Endpoint(lat: real, lon: real, name: string)

  /** The JSON object `process_route_request` returns. */
  datatype RouteResponse = RouteResponse(
    route: seq<LatLng>,
    stations: seq<FormattedStation>,
    startPoint: Endpoint,
    endPoint: Endpoint,
    distance: real,
    time: Option<real>,
    price: Option<real>,
    nbStations: int)

  /** The reshaping around the planner. The collaborators' answers are parameters: `autonomy` is the
      vehicle's best range (`None` when the vehicle lookup failed, which raises inside the `try`),
      `startCoords`/`endCoords` the geocoder's `(lat, lon)` (`None` makes the tuple unpacking raise),
      `routeData` the routing provider's polyline and `timeAndPrice` the SOAP estimate for a distance.
      Every raised exception, like a missing plan, gives `None`. */
  method ProcessRouteRequest(
    start: string, end: string,
    autonomy: Option<real>, startCoords: Option<(real, real)>, endCoords: Option<(real, real)>,
    routeData: Option<seq<Point>>, leg: LegLength, resolver: Resolver, policy: ChargePolicy,
    timeAndPrice: real -> (Option<real>, Option<real>))
    returns (response: Option<RouteResponse>)
    ensures response.None? <==>
              || autonomy.None? || startCoords.None? || endCoords.None?
              || OptimalRoute(autonomy.value, routeData, leg, resolver, policy).NoPlan?
    ensures response.Some? ==>
              var plan := OptimalRoute(autonomy.value, routeData, leg, resolver, policy);
              var r := response.value;
              && r.route == FormatRoute(plan.route)
              && r.stations == FormatStations(plan.stations)
              && r.nbStations == |plan.stations| == |r.stations|
              && r.distance == RouteDistance(plan.route, leg)
              && (r.time, r.price) == timeAndPrice(r.distance)
              && r.startPoint == Endpoint(startCoords.value.0, startCoords.value.1, start)
              && r.endPoint == Endpoint(endCoords.value.0, endCoords.value.1, end)
  {
    if autonomy.None? || startCoords.None? || endCoords.None? {
      return None;
    }
    var (startLat, startLon) := startCoords.value;
    var (endLat, endLon) := endCoords.value;
    var itinerary := CalculateOptimalRoute(autonomy.value, routeData, leg, resolver, policy);
    if itinerary.NoPlan? {
      return None;
    }
    var totalDistance := RouteDistance(itinerary.route, leg);
    var (time, price) := timeAndPrice(totalDistance);
    var formattedRoute := FormatRoute(itinerary.route);
    var formattedStations := FormatStations(itinerary.stations);
    response := Some(RouteResponse(
      formattedRoute, formattedStations,
      Endpoint(startLat, startLon, start), Endpoint(endLat, endLon, end),
      totalDistance, time, price, |itinerary.stations|));
  }

  /** A vehicle connector, with its charging time. */
  datatype Connector = Connector(standard: string, time: real)

  /** `min(connector['time'] for connector in connectors)`; `None` for no connector, where `min` raises. */
  function OptimalChargingTime(connectors: seq<Connector>): (best: Option<real>)
    ensures best.None? <==> connectors == []
    ensures best.Some? ==>
              && (exists i :: 0 <= i < |connectors| && connectors[i].time == best.value)
              && (forall i :: 0 <= i < |connectors| ==> best.value <= connectors[i].time)
  {
    if connectors == [] then None
    else
      match OptimalChargingTime(connectors[1..])
      case None => Some(connectors[0].time)
      case Some(rest) =>
        if connectors[0].time <= rest then Some(connectors[0].time) else Some(rest)
  }
}
