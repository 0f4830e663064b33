/** Distance Estimator: the approximate driven length of a route, in kilometres. */
module Distance {
  import opened Geo

  /** Kilometres per degree used by the planar approximation of one leg. */
  const KmPerDegree: real := 111.0

  /** The length of the leg between two consecutive route points. The source computes
      `sqrt((q.lat - p.lat)^2 + (q.lon - p.lon)^2) * 111`; Dafny has no square root, so the
      model takes the leg length as a parameter of which only non-negativity is known. */
  type LegLength = f: (Point, Point) -> real | forall p, q :: f(p, q) >= 0.0
    witness (p: Point, q: Point) => 0.0

  /** What the source's leg formula satisfies: a non-negative number whose square is
      111^2 times the squared planar distance between the two points. */
  ghost predicate IsPlanarLeg(leg: LegLength) {
    forall p, q :: leg(p, q) * leg(p, q) ==
      KmPerDegree * KmPerDegree * ((q.lat - p.lat) * (q.lat - p.lat) + (q.lon - p.lon) * (q.lon - p.lon))
  }

  /** The sum of the legs between consecutive points; 0 for an empty or one-point route. */
  function RouteDistance(route: seq<Point>, leg: LegLength): (d: real)
    ensures d >= 0.0
    ensures |route| <= 1 ==> d == 0.0
  {
    if |route| <= 1 then 0.0
    else RouteDistance(route[..|route| - 1], leg) + leg(route[|route| - 2], route[|route| - 1])
  }

  /** Appending one point to a non-empty route adds exactly one leg. */
  lemma {:induction false} AppendAddsOneLeg(route: seq<Point>, p: Point, leg: LegLength)
    requires |route| >= 1
    ensures RouteDistance(route + [p], leg) == RouteDistance(route, leg) + leg(route[|route| - 1], p)
  {
    assert (route + [p])[..|route|] == route;
  }

  /** Prepending one point to a non-empty route adds exactly one leg at the front. */
  lemma {:induction false} PrependAddsOneLeg(p: Point, route: seq<Point>, leg: LegLength)
    requires |route| >= 1
    ensures RouteDistance([p] + route, leg) == leg(p, route[0]) + RouteDistance(route, leg)
    decreases |route|
  {
    if |route| > 1 {
      var front := route[..|route| - 1];
      PrependAddsOneLeg(p, front, leg);
      assert ([p] + route)[..|route|] == [p] + front;
    }
  }

  /** The distance of a concatenation is the two distances plus the leg that joins them. */
  lemma {:induction false} ConcatDistance(a: seq<Point>, b: seq<Point>, leg: LegLength)
    requires |a| >= 1 && |b| >= 1
    ensures RouteDistance(a + b, leg) == RouteDistance(a, leg) + leg(a[|a| - 1], b[0]) + RouteDistance(b, leg)
    decreases |b|
  {
    if |b| == 1 {
      assert a + b == a + [b[0]];
      AppendAddsOneLeg(a, b[0], leg);
    } else {
      var front := b[..|b| - 1];
      ConcatDistance(a, front, leg);
      assert (a + b)[..|a + b| - 1] == a + front;
    }
  }

  /** A sub-route never measures longer than the route it is cut from. */
  lemma {:induction false} PrefixNoLonger(route: seq<Point>, n: nat, leg: LegLength)
    requires n <= |route|
    ensures RouteDistance(route[..n], leg) <= RouteDistance(route, leg)
    decreases |route| - n
  {
    if n < |route| {
      PrefixNoLonger(route, n + 1, leg);
      if n >= 1 {
        assert route[..n + 1] == route[..n] + [route[n]];
        AppendAddsOneLeg(route[..n], route[n], leg);
      }
      assert route[..|route|] == route;
    } else {
      assert route[..n] == route;
    }
  }

  /** The source's leg formula does not depend on the direction of travel. */
  lemma PlanarLegSymmetric(leg: LegLength, p: Point, q: Point)
    requires IsPlanarLeg(leg)
    ensures leg(p, q) == leg(q, p)
  {
    var x, y := leg(p, q), leg(q, p);
    assert (q.lat - p.lat) * (q.lat - p.lat) == (p.lat - q.lat) * (p.lat - q.lat);
    assert (q.lon - p.lon) * (q.lon - p.lon) == (p.lon - q.lon) * (p.lon - q.lon);
    assert x * x == y * y;
    if x < y {
      SquareStrict(x, y);
    } else if y < x {
      SquareStrict(y, x);
    }
  }

  lemma SquareStrict(x: real, y: real)
    requires 0.0 <= x < y
    ensures x * x < y * y
  {
    var d := y - x;
    assert y * y == (x + d) * (x + d);
    assert (x + d) * (x + d) == x * x + 2.0 * x * d + d * d;
    assert d * d > 0.0;
    assert x * d >= 0.0;
  }

  function Reversed(route: seq<Point>): (r: seq<Point>)
    ensures |r| == |route|
  {
    if route == [] then [] else Reversed(route[1..]) + [route[0]]
  }

  /** With the source's leg formula, a route driven backwards measures the same. */
  lemma {:induction false} ReversedSameDistance(route: seq<Point>, leg: LegLength)
    requires IsPlanarLeg(leg)
    ensures RouteDistance(Reversed(route), leg) == RouteDistance(route, leg)
    decreases |route|
  {
    if |route| >= 2 {
      var rest := route[1..];
      ReversedSameDistance(rest, leg);
      ReversedLast(rest);
      AppendAddsOneLeg(Reversed(rest), route[0], leg);
      assert route == [route[0]] + rest;
      PrependAddsOneLeg(route[0], rest, leg);
      PlanarLegSymmetric(leg, route[0], rest[0]);
    }
  }

  lemma {:induction false} ReversedLast(route: seq<Point>)
    requires route != []
    ensures Reversed(route)[|route| - 1] == route[0]
  {
  }
}
