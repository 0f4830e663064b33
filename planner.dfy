/** `calculate_optimal_route`: the whole stop-placement pipeline for one planning request. */
module Planner {
  import opened Wrappers
  import opened Geo
  import opened Distance
  import opened Charges
  import opened Partition
  import opened Candidates
  import opened Dedup
  import opened Assembler

  /** The source's result pair: `(None, None)` when no plan is possible, otherwise the route and its stops. */
  datatype Itinerary = NoPlan | Plan(route: seq<Point>, stations: seq<Station>)

  /** The number of charges the pipeline plans for a route. */
  function ChargesFor(route: seq<Point>, autonomy: real, leg: LegLength, policy: ChargePolicy): int {
    RequiredCharges(RouteDistance(route, leg), autonomy, SafetyMargin, policy)
  }

  /** The pipeline as a function. `routeData` is the routing provider's answer (`None` when the request
      failed); it is consulted only when the autonomy is positive, as the source fetches it only then. */
  function OptimalRoute(autonomy: real, routeData: Option<seq<Point>>, leg: LegLength, resolver: Resolver, policy: ChargePolicy): Itinerary {
    if autonomy <= 0.0 then NoPlan
    else if routeData.None? || routeData.value == [] then NoPlan
    else
      var route := routeData.value;
      var k := ChargesFor(route, autonomy, leg, policy);
      Plan(route, Stops(route, k, resolver))
  }

  /** The stops for `k` charges: none when no charge is needed, else the search of the first `k` of the
      `k + 1` segments. */
  function Stops(route: seq<Point>, k: int, resolver: Resolver): seq<Station> {
    if k == 0 then [] else Assemble(Split(route, k + 1), k, resolver)
  }

  /** The source's straight-line composition: early exits, the distance, the charge count, the split
      into `k + 1` segments and the search of the first `k`. */
  method CalculateOptimalRoute(autonomy: real, routeData: Option<seq<Point>>, leg: LegLength, resolver: Resolver, policy: ChargePolicy)
    returns (itinerary: Itinerary)
    ensures itinerary == OptimalRoute(autonomy, routeData, leg, resolver, policy)
    ensures itinerary.NoPlan? <==> autonomy <= 0.0 || routeData.None? || routeData.value == []
    ensures itinerary.Plan? ==> itinerary.route == routeData.value
  {
    if autonomy <= 0.0 {
      return NoPlan;
    }
    if routeData.None? || routeData.value == [] {
      return NoPlan;
    }
    var route := routeData.value;
    var totalDistance := RouteDistance(route, leg);
    var numberChargeRequired := RequiredCharges(totalDistance, autonomy, SafetyMargin, policy);
    if numberChargeRequired == 0 {
      PlanOf(autonomy, route, leg, resolver, policy, numberChargeRequired, []);
      return Plan(route, []);
    }
    var segments := SplitRouteData(route, numberChargeRequired + 1);
    var optimalStations := FindChargingStations(segments, numberChargeRequired, resolver);
    StopsOf(route, numberChargeRequired, resolver, segments, optimalStations);
    PlanOf(autonomy, route, leg, resolver, policy, numberChargeRequired, optimalStations);
    return Plan(route, optimalStations);
  }

  /** With `k` charges, the stops are the search of the first `k` of the `k + 1` segments. */
  lemma StopsOf(route: seq<Point>, k: int, resolver: Resolver, segments: map<int, seq<Point>>, stations: seq<Station>)
    requires k != 0 && segments == Split(route, k + 1) && stations == Assemble(segments, k, resolver)
    ensures stations == Stops(route, k, resolver)
  {
  }

  /** A route with a positive autonomy is planned with its charge count's stops. */
  lemma PlanOf(autonomy: real, route: seq<Point>, leg: LegLength, resolver: Resolver, policy: ChargePolicy, k: int, stations: seq<Station>)
    requires autonomy > 0.0 && route != []
    requires k == RequiredCharges(RouteDistance(route, leg), autonomy, SafetyMargin, policy)
    requires stations == Stops(route, k, resolver)
    ensures OptimalRoute(autonomy, Some(route), leg, resolver, policy) == Plan(route, stations)
  {
  }

  /** A plan has no more stops than charges required, never more than the cap when there is one,
      and no two of its stops are duplicates of each other. */
  lemma PlanBounds(autonomy: real, route: seq<Point>, leg: LegLength, resolver: Resolver, policy: ChargePolicy)
    requires autonomy > 0.0 && route != []
    ensures var plan := OptimalRoute(autonomy, Some(route), leg, resolver, policy);
            var k := ChargesFor(route, autonomy, leg, policy);
            && plan.Plan? && plan.route == route
            && |plan.stations| <= k
            && (policy.CappedAt? ==> |plan.stations| <= policy.maxCharges)
            && PairwiseDistinct(plan.stations)
  {
    var k := ChargesFor(route, autonomy, leg, policy);
    assert k >= 0;
    var stations := if k == 0 then [] else Assemble(Split(route, k + 1), k, resolver);
    assert OptimalRoute(autonomy, Some(route), leg, resolver, policy) == Plan(route, stations);
    if k != 0 {
      AssembleBounded(Split(route, k + 1), k, resolver);
      AssembleDistinct(Split(route, k + 1), k, resolver);
    }
  }

  /** With a positive autonomy and a route, the stop list is empty WITHOUT searching exactly when the
      route measures 0 km (any cap of at least one charge). */
  lemma NoSearchOnlyForZeroDistance(autonomy: real, route: seq<Point>, leg: LegLength, policy: ChargePolicy)
    requires autonomy > 0.0 && route != []
    requires policy.CappedAt? ==> policy.maxCharges >= 1
    ensures ChargesFor(route, autonomy, leg, policy) == 0 <==> RouteDistance(route, leg) == 0.0
  {
    ZeroChargesIffZeroDistance(RouteDistance(route, leg), autonomy, SafetyMargin, policy);
  }

  /** Every stop of a plan was found for one of the first `k` of the `k + 1` segments, from one of that
      segment's candidate points, in increasing segment order; the last segment is never searched. */
  lemma StopsComeFromSearchedSegments(autonomy: real, route: seq<Point>, leg: LegLength, resolver: Resolver, policy: ChargePolicy)
    requires autonomy > 0.0 && route != []
    requires ChargesFor(route, autonomy, leg, policy) > 0
    ensures var k := ChargesFor(route, autonomy, leg, policy);
            var picks := Picks(Split(route, k + 1), k, resolver);
            && OptimalRoute(autonomy, Some(route), leg, resolver, policy).stations == Stations(picks)
            && WellFounded(picks, Split(route, k + 1), k, resolver)
  {
    var k := ChargesFor(route, autonomy, leg, policy);
    PicksWellFounded(Split(route, k + 1), k, resolver);
  }

  /** Replacing the last segment (number `k`) by anything changes no stop: it is never searched. */
  lemma LastSegmentNeverSearched(route: seq<Point>, k: nat, resolver: Resolver, other: seq<Point>)
    requires route != []
    ensures Assemble(Split(route, k + 1)[k := other], k, resolver) == Assemble(Split(route, k + 1), k, resolver)
  {
    OnlySearchedSegmentsMatter(Split(route, k + 1)[k := other], Split(route, k + 1), k, resolver);
  }

  /** With fewer points than segments, the trailing (empty) segments contribute no stop. */
  lemma ShortRouteTrailingSegments(route: seq<Point>, k: nat, resolver: Resolver, i: nat)
    requires 0 < |route| < k + 1 && |route| <= i < k + 1
    ensures var picks := Picks(Split(route, k + 1), k, resolver);
            forall j :: 0 <= j < |picks| ==> picks[j].segment != i
  {
    TrailingSegmentsEmpty(route, k + 1, i);
    UnservedSegment(Split(route, k + 1), k, resolver, i);
  }

  /** The source's degraded case, autonomy 0: no plan at all (the caller then reports failure). */
  lemma ExampleZeroAutonomy(routeData: Option<seq<Point>>, leg: LegLength, resolver: Resolver, policy: ChargePolicy)
    ensures OptimalRoute(0.0, routeData, leg, resolver, policy) == NoPlan
  {
  }
}
