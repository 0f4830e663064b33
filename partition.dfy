/** Route Partitioner: `split_route_data`, cutting the route into `n` contiguous, near-equal segments. */
module Partition {

  /** Where segment `i` of `n` begins: `i` segments of `length / n` points each, plus one extra
      point for each of the first `length % n` segments already passed. */
  function Boundary(length: nat, n: nat, i: nat): (b: nat)
    requires n > 0 && i <= n
    ensures b <= length
  {
    BoundaryBelowLength(length, n, i);
    i * (length / n) + (if i < length % n then i else length % n)
  }

  lemma BoundaryBelowLength(length: nat, n: nat, i: nat)
    requires n > 0 && i <= n
    ensures i * (length / n) + (if i < length % n then i else length % n) <= length
  {
    var q, r := length / n, length % n;
    assert length == n * q + r;
    assert i * q <= n * q by {
      NatMultiplyMonotone(i, n, q);
    }
  }

  lemma NatMultiplyMonotone(x: nat, y: nat, c: nat)
    requires x <= y
    ensures x * c <= y * c
  {
    assert y * c - x * c == (y - x) * c;
  }

  /** The number of points of segment `i`: `length / n`, plus one for the first `length % n` segments. */
  function SegmentSize(length: nat, n: nat, i: nat): nat
    requires n > 0
  {
    length / n + (if i < length % n then 1 else 0)
  }

  /** Consecutive boundaries are one segment size apart, so segment `i` is `route[Boundary(i)..Boundary(i + 1)]`. */
  lemma BoundaryStep(length: nat, n: nat, i: nat)
    requires n > 0 && i < n
    ensures Boundary(length, n, i + 1) == Boundary(length, n, i) + SegmentSize(length, n, i)
  {
    assert (i + 1) * (length / n) == i * (length / n) + length / n;
  }

  /** The whole route is covered: the last boundary is the route's end. */
  lemma LastBoundary(length: nat, n: nat)
    requires n > 0
    ensures Boundary(length, n, 0) == 0
    ensures Boundary(length, n, n) == length
  {
    assert length == n * (length / n) + length % n;
  }

  /** The segments the source produces: the empty mapping for an empty route or `n <= 0`,
      otherwise keys `0 .. n - 1`, key `i` holding the points between boundaries `i` and `i + 1`. */
  function Split<T>(route: seq<T>, n: int): (segments: map<int, seq<T>>)
    ensures |route| == 0 || n <= 0 ==> segments == map[]
    ensures |route| > 0 && n > 0 ==> forall i :: i in segments <==> 0 <= i < n
  {
    if |route| == 0 || n <= 0 then map[]
    else
      map i | 0 <= i < n :: route[Boundary(|route|, n, i)..BoundaryAfter(|route|, n, i)]
  }

  /** `Boundary(length, n, i + 1)`, known to be at least `Boundary(length, n, i)`. */
  function BoundaryAfter(length: nat, n: nat, i: nat): (b: nat)
    requires n > 0 && i < n
    ensures Boundary(length, n, i) <= b <= length
    ensures b == Boundary(length, n, i) + SegmentSize(length, n, i)
  {
    BoundaryStep(length, n, i);
    Boundary(length, n, i + 1)
  }

  /** The loop of `split_route_data`: `start` walks the boundaries and each turn stores one slice. */
  method SplitRouteData<T>(route: seq<T>, n: int) returns (result: map<int, seq<T>>)
    ensures result == Split(route, n)
  {
    if |route| == 0 || n <= 0 {
      return map[];
    }
    var length := |route|;
    var minLength := length / n;
    var remainder := length % n;
    result := map[];
    var start := 0;
    for i := 0 to n
      invariant start == Boundary(length, n, i)
      invariant result == map j | 0 <= j < i :: route[Boundary(length, n, j)..BoundaryAfter(length, n, j)]
    {
      var subLength := minLength + (if i < remainder then 1 else 0);
      var end := start + subLength;
      BoundaryStep(length, n, i);
      result := result[i := route[start..end]];
      start := end;
    }
  }

  /** The segments `0 .. i - 1` of a mapping, joined in key order. */
  function Concat<T>(segments: map<int, seq<T>>, i: nat): seq<T>
    requires forall j :: 0 <= j < i ==> j in segments
  {
    if i == 0 then [] else Concat(segments, i - 1) + segments[i - 1]
  }

  /** The first `i` segments, joined, are the route up to boundary `i`. */
  lemma {:induction false} ConcatPrefix<T>(route: seq<T>, n: nat, i: nat)
    requires |route| > 0 && 0 < n && i <= n
    ensures Concat(Split(route, n), i) == route[..Boundary(|route|, n, i)]
  {
    if i > 0 {
      ConcatPrefix(route, n, i - 1);
      var a, b := Boundary(|route|, n, i - 1), Boundary(|route|, n, i);
      SegmentBefore(route, n, i);
      PrefixThenSlice(route, a, b);
    }
  }

  /** Segment `i - 1` runs from boundary `i - 1` to boundary `i`. */
  lemma SegmentBefore<T>(route: seq<T>, n: nat, i: nat)
    requires |route| > 0 && 0 < i <= n
    ensures i - 1 in Split(route, n)
    ensures Boundary(|route|, n, i - 1) <= Boundary(|route|, n, i)
    ensures Split(route, n)[i - 1] == route[Boundary(|route|, n, i - 1)..Boundary(|route|, n, i)]
  {
    var j := i - 1;
    assert BoundaryAfter(|route|, n, j) == Boundary(|route|, n, j + 1) == Boundary(|route|, n, i);
  }

  lemma PrefixThenSlice<T>(s: seq<T>, a: nat, b: nat)
    requires a <= b <= |s|
    ensures s[..b] == s[..a] + s[a..b]
  {
  }

  /** Joining all `n` segments in key order gives back the route exactly. */
  lemma ConcatReproducesRoute<T>(route: seq<T>, n: nat)
    requires |route| > 0 && n > 0
    ensures Concat(Split(route, n), n) == route
  {
    ConcatPrefix(route, n, n);
    LastBoundary(|route|, n);
  }

  /** Segment `i` has `length / n` points, one more when `i < length % n`. */
  lemma SegmentSizes<T>(route: seq<T>, n: nat, i: nat)
    requires |route| > 0 && 0 <= i < n
    ensures i in Split(route, n)
    ensures |Split(route, n)[i]| == |route| / n + (if i < |route| % n then 1 else 0)
  {
  }

  /** Sizes differ by at most one, and an earlier segment is never smaller than a later one. */
  lemma SizesBalanced<T>(route: seq<T>, n: nat, i: nat, j: nat)
    requires |route| > 0 && i < n && j < n
    ensures var segments := Split(route, n);
            i in segments && j in segments &&
            |segments[i]| <= |segments[j]| + 1 &&
            (i <= j ==> |segments[j]| <= |segments[i]|)
  {
    SegmentSizes(route, n, i);
    SegmentSizes(route, n, j);
  }

  /** The sizes of the first `i` segments, added up. */
  function SizeSum<T>(segments: map<int, seq<T>>, i: nat): nat
    requires forall j :: 0 <= j < i ==> j in segments
  {
    if i == 0 then 0 else SizeSum(segments, i - 1) + |segments[i - 1]|
  }

  /** The sizes of all `n` segments add up to the route's length. */
  lemma {:induction false} SizesSumToLength<T>(route: seq<T>, n: nat)
    requires |route| > 0 && n > 0
    ensures SizeSum(Split(route, n), n) == |route|
  {
    var segments := Split(route, n);
    ConcatReproducesRoute(route, n);
    SumIsConcatLength(segments, n);
  }

  lemma {:induction false} SumIsConcatLength<T>(segments: map<int, seq<T>>, i: nat)
    requires forall j :: 0 <= j < i ==> j in segments
    ensures SizeSum(segments, i) == |Concat(segments, i)|
  {
    if i > 0 {
      SumIsConcatLength(segments, i - 1);
    }
  }

  /** With fewer points than segments, every segment from index `|route|` on is empty. */
  lemma TrailingSegmentsEmpty<T>(route: seq<T>, n: nat, i: nat)
    requires 0 < |route| < n && |route| <= i < n
    ensures i in Split(route, n) && Split(route, n)[i] == []
  {
    SmallQuotient(|route|, n);
    SegmentSizes(route, n, i);
  }

  lemma SmallQuotient(length: nat, n: nat)
    requires length < n
    ensures length / n == 0 && length % n == length
  {
    var q := length / n;
    assert length == n * q + length % n;
    if q >= 1 {
      NatMultiplyMonotone(1, q, n);
      assert false;
    }
  }

  /** Example: ten points in three segments have sizes 4, 3 and 3. */
  lemma ExampleTenIntoThree<T>(route: seq<T>)
    requires |route| == 10
    ensures var segments := Split(route, 3);
            |segments[0]| == 4 && |segments[1]| == 3 && |segments[2]| == 3
  {
    SegmentSizes(route, 3, 0);
    SegmentSizes(route, 3, 1);
    SegmentSizes(route, 3, 2);
  }
}
