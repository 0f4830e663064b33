# Charging-stop planner — a Dafny model

This project models the core of an electric-vehicle trip planner. Given a route polyline, the
vehicle's autonomy and a station lookup, the planner does three things:

- it estimates the distance;
- it derives how many charges are needed;
- it cuts the route into `k + 1` near-equal segments and greedily picks at most one non-duplicate charging station for each of the first `k` segments.

Around the planner sit two more pieces: the reshaping of the result for the web front end, and the SOAP time/price estimator.

The source repeats the pipeline almost verbatim in four Flask entry points: `app.py`,
`api/app.py`, `api/flask/app.py` and `api/app_flask.py`. There is a single model of it. Inside the modelled
functions the one behavioural drift between the copies is the cap on the charge count, which app.py lacks.
It is the parameter `Charges.ChargePolicy`: `Uncapped` for app.py, `CappedAt(10)` for the three others.
The copies also differ in their collaborators' failure behaviour; "## Left out" lists each such difference
(`Planner.CalculateOptimalRoute`, `Assembler.FindChargingStations`, `get_price_and_time`).

Modules, leaves first:

- `Wrappers`: `Option`.
- `Geo`: the route point `Point(lon, lat)`, the `Station` record and the `Resolver` type. A resolver is the station lookup, `Point -> Option<Station>`.
- `Distance` (`calculate_route_distance`): the leg length `sqrt(dx² + dy²) · 111` is a parameter of type `LegLength`, a function known only to be non-negative. `IsPlanarLeg` states what the real formula satisfies.
- `Charges` (`get_required_charges`): ceiling, cap and the 0.8 safety margin.
- `Partition` (`split_route_data`): the method `SplitRouteData` runs the source's loop. It is proved equal to the function `Split`.
- `Candidates` (`get_search_points`), `Dedup` (`is_duplicate_station`).
- `Assembler` (`find_charging_stations`): the method `FindChargingStations` has the nested loop with `break`. It is proved equal to `Assemble`, the stations of the spec function `Picks`. `Picks` records, for each accepted stop, its segment and candidate point.
- `Planner` (`calculate_optimal_route`): the function `OptimalRoute` and the method `CalculateOptimalRoute`, which calls the two loop methods.
- `Response` (`process_route_request` of the api/ copies, `get_optimal_charging_time`).
- `TimePrice` (`TimePriceService.get_time_price`): the hours-based copies in api/app_soap.py and api/soap/app.py share one formula, `GetTimePrice`. The older minutes-based one in services/service_soap.py is `LegacyGetTimePrice`.

Collaborators become parameters:

- the route polyline (`routeData: Option<seq<Point>>`, `None` when the request failed);
- the station lookup (`resolver`);
- the leg length (`leg`);
- the vehicle's autonomy and the geocoded endpoints (`Option` values, `None` where the source raises inside its `try`);
- the SOAP estimate for a distance (`timeAndPrice`).

Behaviours worth stating outright:

- A zero autonomy gives no plan, not the route with an empty stop list: `calculate_optimal_route` returns `(None, None)` (`Planner.ExampleZeroAutonomy`).
- With zero required charges the route is not split at all. The result is `(route, [])`.
- The duplicate threshold is 0.0001 degrees in every copy. The station-lookup drift (app.py reads `stations.records` from a proxy, the api/ services read `records`) lies inside the resolver.
- The older SOAP service prices minutes, not hours. `TimePrice.LegacyPricesMinutes` and `TimePrice.ServicesDisagreeOnPrice` state the difference.

## Model

| member | source | states |
|---|---|---|
| `Distance.RouteDistance` | api/app.py:69-76 | the route length is non-negative, and 0 for an empty or one-point route |
| `Distance.AppendAddsOneLeg` | api/app_flask.py:53-61 | appending a point to a non-empty route adds exactly the one leg from the old last point |
| `Distance.PrependAddsOneLeg` | app.py:99-106 | prepending a point adds exactly the leg to the old first point |
| `Distance.ConcatDistance` | api/flask/app.py:60-67 | the length of `a + b` is the two lengths plus the joining leg |
| `Distance.PrefixNoLonger` | api/app.py:72-75 | a prefix of a route never measures more than the route |
| `Distance.PlanarLegSymmetric` | app.py:103-104 | the planar leg formula gives the same length in both directions |
| `Distance.ReversedSameDistance` | app.py:102-106 | with the planar leg formula, the reversed route has the same length |
| `Charges.Ceil` | app.py:111 | `math.ceil`: the least integer not below the argument |
| `Charges.RequiredCharges` | api/app.py:78-83 | 0 when autonomy ≤ 0; never negative for a non-negative distance; never above the cap when capped |
| `Charges.CappedIsMinOfUncapped` | api/app.py:81-82 | the capped count is `min(uncapped count, max_charges)` |
| `Charges.ChargesCoverDistance` | app.py:108-111 | uncapped, `k` usable ranges (autonomy · 0.8) cover the distance and `k - 1` do not |
| `Charges.MonotoneInDistance` | api/app.py:81-82 | the count is non-decreasing in distance, for every policy |
| `Charges.AntitoneInAutonomy` | api/flask/app.py:72-73 | with a positive autonomy and a non-negative distance, the count is non-increasing in autonomy |
| `Charges.ZeroChargesIffZeroDistance` | api/app.py:79-81 | with a positive autonomy and a cap of at least 1, the count is 0 exactly when the distance is 0 |
| `Charges.ExampleThreeHundredKm` | api/app_flask.py:63-69 | 300 km at 150 km autonomy needs ⌈300/120⌉ = 3 charges |
| `Charges.ExampleCapBites` | app.py:108-111 | 1300 km at 100 km autonomy needs 17 uncapped and 10 capped |
| `Partition.Split` | app.py:26-41 | an empty route or `n ≤ 0` gives the empty mapping; otherwise the keys are exactly `0 .. n-1` |
| `Partition.SplitRouteData` | api/app.py:18-33 | the loop advancing `start` and filling `result` yields exactly `Split(route, n)` |
| `Partition.ConcatPrefix` | api/app_flask.py:20-26 | segments `0 .. i-1`, joined, are the route up to the `i`-th boundary: each segment starts where the previous ended |
| `Partition.ConcatReproducesRoute` | app.py:33-39 | joining all `n` segments in key order reproduces the route exactly |
| `Partition.SegmentSizes` | api/flask/app.py:26-36 | segment `i` has `⌊len/n⌋` points, plus 1 when `i < len mod n` |
| `Partition.SizesBalanced` | api/app_flask.py:12-28 | sizes differ by at most 1, and an earlier segment is never smaller than a later one |
| `Partition.SizesSumToLength` | app.py:29-39 | the segment sizes sum to the route length |
| `Partition.TrailingSegmentsEmpty` | api/flask/app.py:27-36 | with fewer points than segments, every segment from index `len` on is empty |
| `Partition.ExampleTenIntoThree` | app.py:30-36 | ten points in three segments give sizes 4, 3, 3 |
| `Candidates.SearchIndices` | app.py:118 | three indices `j·len//4`, non-decreasing, all below `len` when `len > 0` |
| `Candidates.InBounds` | app.py:116-119 | the filtered comprehension keeps only elements of the segment; when every index is in bounds, it keeps one element per index, in order |
| `Candidates.SearchPoints` | api/app.py:85-92 | `[]` for an empty segment; at most 3 points, each from the segment; for a non-empty segment exactly the elements at `len//4`, `2len//4`, `3len//4` |
| `Candidates.OnePointSegment` | api/flask/app.py:76-83 | a one-point segment yields that point three times |
| `Dedup.IsDuplicate` | app.py:147-152 | true iff some existing station has both coordinate differences strictly below the threshold |
| `Dedup.NearSymmetric` | api/flask/app.py:85-90 | the proximity test is symmetric in the two stations |
| `Dedup.NothingDuplicatesNothing` | api/flask/app.py:86-90 | nothing is a duplicate against an empty list |
| `Dedup.DuplicateOfExtended` | api/app_flask.py:81-87 | a duplicate of `list + [s]` is exactly a duplicate of `list` or a station near `s` |
| `Dedup.SamePlaceIsDuplicate` | api/app.py:94-99 | with a positive threshold, a station at a listed station's coordinates is a duplicate |
| `Assembler.FirstAcceptable` | app.py:162-166 | the first candidate index whose lookup finds a non-duplicate station; `None` iff no candidate qualifies |
| `Assembler.FindChargingStations` | app.py:154-168 | the nested loop with `continue` and `break` returns exactly `Assemble(segments, k, resolver)`, whose properties are the lemmas below |
| `Assembler.AssembleBounded` | api/app_flask.py:89-104 | at most one stop per searched segment, so at most `k` stops |
| `Assembler.AssembleDistinct` | api/app.py:101-115 | no appended station duplicates an earlier one, so the output is pairwise non-duplicate in both orders |
| `Assembler.PicksWellFounded` | api/flask/app.py:92-106 | each stop comes from a segment `0 ≤ i < k` present in the mapping and from one of its search points, as the resolver's answer there; segment indices strictly increase |
| `Assembler.PicksAreGreedy` | api/app.py:109-113 | each stop comes from the first candidate of its segment that is not a duplicate of the stops before it |
| `Assembler.PicksPrefix` | app.py:157-166 | the stops for the first `i` segments are a prefix of those for the first `k ≥ i` |
| `Assembler.SegmentPickComesLast` | app.py:164-166 | a segment with an acceptable candidate appends its stop right after the earlier segments' stops |
| `Assembler.SilentSegment` | api/app.py:101-115 | a searched segment that adds no stop had only candidates resolving to none or to duplicates of earlier stops |
| `Assembler.UnservedSegment` | api/flask/app.py:99-104 | a segment whose candidates all resolve to none adds no stop |
| `Assembler.OnlySearchedSegmentsMatter` | app.py:157-161 | mappings that agree on keys `0 .. k-1` give the same stops |
| `Assembler.OnlyCandidatesAreLookedUp` | api/flask/app.py:99-101 | resolvers that agree on the search points of segments `0 .. k-1` give the same stops |
| `Assembler.ExampleNearbyCandidates` | api/app_flask.py:98-102 | a candidate whose station is within the threshold of an earlier segment's stop is skipped, the segment's next candidate is kept, and later candidates are not consulted |
| `Planner.CalculateOptimalRoute` | app.py:170-187 | no plan exactly when autonomy ≤ 0 or the route is missing or empty; otherwise the route is returned unchanged, with the stop list of `OptimalRoute` |
| `Planner.PlanBounds` | api/app.py:117-134 | a plan has at most `k` stops, at most the cap when capped, and no two are duplicates |
| `Planner.NoSearchOnlyForZeroDistance` | api/app.py:125-129 | with autonomy > 0 and a cap of at least 1, the `(route, [])` branch without search is taken exactly when the distance is 0 |
| `Planner.StopsComeFromSearchedSegments` | api/app_flask.py:106-124 | when `k > 0`, the stops come from the split into `k + 1` segments: each comes from one of the first `k` segments, in segment order |
| `Planner.LastSegmentNeverSearched` | api/flask/app.py:122-123 | replacing segment `k` by anything leaves the stops unchanged |
| `Planner.ShortRouteTrailingSegments` | api/flask/app.py:77-78 | with fewer than `k + 1` points, the trailing empty segments contribute no stop |
| `Planner.ExampleZeroAutonomy` | app.py:171-172 | autonomy 0 gives no plan |
| `Response.FormatRoute` | api/app.py:186 | one `[lat, lon]` per `[lon, lat]` route point, same length and order |
| `Response.SwapRoundTrip` | api/app_flask.py:145 | swapping the coordinates back gives the original pairs, from either side |
| `Response.FormatStation` | api/app.py:189-194 | keeps lat/lon; name defaults to 'Station de recharge', address to '' |
| `Response.FormatStations` | api/flask/app.py:149-154 | one formatted station per stop, same count and order |
| `Response.ProcessRouteRequest` | api/app.py:169-223 | `None` exactly when the vehicle or geocoding lookup fails or there is no plan; otherwise the reshaped route and stations, the route distance, the SOAP answer for it, both endpoints, and `nb_stations` equal to the number of stops |
| `Response.OptimalChargingTime` | api/app.py:36-38 | `None` for no connector; otherwise equal to some connector's time and ≤ every connector's time |
| `TimePrice.GetTimePrice` | api/app_soap.py:9-34 | a pair `[total, price]` with price = 2·total; `[0, 0]` (the `except` branch) for a zero autonomy or a missing argument; otherwise total = d/90 + (d/a)·(r/60) |
| `TimePrice.HoursProportionalToDistance` | api/soap/app.py:17-20 | for a > 0 and r ≥ 0, total = d · (1/90 + r/(60a)), with a positive rate |
| `TimePrice.StrictlyIncreasingInDistance` | api/app_soap.py:22-26 | for a > 0 and r ≥ 0, hours and price are strictly increasing in distance |
| `TimePrice.ZeroDistanceIsFree` | api/soap/app.py:17-21 | distance 0 with a non-zero autonomy gives [0, 0] |
| `TimePrice.LegacyGetTimePrice` | services/service_soap.py:8-12 | the call fails exactly when an argument is missing or autonomy = 0 (no handler); otherwise it answers `[d/a + r/60, 2·(d/a·60 + r)]`, the minutes over 60 and twice the minutes |
| `TimePrice.LegacyPricesMinutes` | services/service_soap.py:10-12 | the older price is 2 × minutes, i.e. 120 × the hours it reports |
| `TimePrice.LegacyZeroDistance` | services/service_soap.py:10-12 | distance 0 gives hours r/60 and price 2r |
| `TimePrice.ServicesDisagreeOnPrice` | services/service_soap.py:10-11 | for 90 km, 90 km autonomy and r = 60, both services give 2 h, but the prices are 4 vs. 240 |

## Left out

- Station lookup: `find_nearest_station` (HTTP query of OpenDataSoft, radius 0.1°, `records` or `stations.records`, default name 'Station inconnue') is the `resolver` parameter. Its caught errors and `None` answers are the resolver returning `None`.
- Routing, geocoding and vehicle clients (`get_route_data`, `get_coordinates`, `get_vehicle_list`, `get_vehicle_details`) are network wrappers. Their answers enter as parameters.
- The square root of the leg length: Dafny has no `sqrt`. The leg is an abstract non-negative function. `IsPlanarLeg` characterises it by its square and is used only for the symmetry lemmas.
- Floating point: coordinates, distances and prices are exact reals. Overflow, NaN and rounding are not modelled, and neither is `round(..., 2)` in `get_price_and_time`.
- TimePrice.LegacyGetTimePrice: a non-integer argument that spyne's `Integer` rejects is not modelled; a missing one is `None`.
- Text: the SOAP results are strings (`str(...)`, `'{:.2f}'`). The model returns the numbers.
- `get_price_and_time` (zeep/spyne client glue and casts) is the `timeAndPrice` parameter of `ProcessRouteRequest`. Its drift between copies is not modelled: app.py and api/app.py skip the SOAP call for a zero distance, app.py passes `int(distance)` and does not round, and api/flask/app.py and api/app_flask.py round the answers to two decimals.
- Planner.CalculateOptimalRoute: a failed routing request gives `NoPlan` under every policy. The source returns `(None, None)` only when app.py's own request to its routing service (services/service_map.py, `/map` on port 5012) fails. When the upstream OpenRouteService request fails, `get_map` answers `{}` (services/service_map.py for app.py, api/services/service_map.py for api/app.py and api/app_flask.py), and every copy's `get_route_data` raises `KeyError` on `['features']`. The api/ copies' `process_route_request` turns that into `None`; app.py's exception reaches Flask. The model's `None` route stands for both outcomes. api/flask/app.py imports a `service_map` that is not part of this model.
- Assembler.FindChargingStations: the resolver is total. In app.py, `find_nearest_station` catches only `RequestException`, so a malformed station record (`KeyError`, `ValueError` in the `float` casts) propagates out of `find_charging_stations`; the model does not capture that failure. The api/ lookups catch every exception and return `None`, which the resolver does model.
- Presentation: this covers the Flask route handlers, CORS, `render_template`, all folium map building, the folium-based `process_route_request` of app.py, interface/client.py and the React front end.
- Concurrency: each request is independent and single-threaded.
- Charges.RequiredCharges: requires a positive safety margin. A zero margin raises `ZeroDivisionError` in the source, and no caller passes anything but the default 0.8. A negative `max_charges` is not modelled either (the cap is a `nat`), and every caller uses 10.
- Response.ProcessRouteRequest: does not model exceptions raised by the route points themselves (a point with fewer than two coordinates) or by the station lookup. The lookup in the api/ services catches everything and returns `None`.
- Response.OptimalChargingTime: `min` of an empty list raises `ValueError` in the source. The model returns `None`.
- The `print` logging in every function.
