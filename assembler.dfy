/** Stop Assembler: `find_charging_stations`, the greedy per-segment search for charging stops. */
module Assembler {
  import opened Wrappers
  import opened Geo
  import opened Dedup
  import opened Candidates

  /** One accepted stop: the segment it was found for, the candidate point that found it, and the station. */
  datatype Pick = Pick(segment: int, point: Point, station: Station)

  /** A lookup answer the assembler keeps: a station that duplicates none accepted so far. */
  predicate Accepts(found: Option<Station>, accepted: seq<Station>) {
    found.Some? && !IsDuplicate(found.value, accepted, DuplicateThreshold)
  }

  /** The index of the first candidate, from `from` on, whose lookup the assembler keeps. */
  function FirstAcceptable(points: seq<Point>, resolver: Resolver, accepted: seq<Station>, from: nat): (r: Option<nat>)
    requires from <= |points|
    ensures r.Some? ==>
              && from <= r.value < |points|
              && Accepts(resolver(points[r.value]), accepted)
              && forall j :: from <= j < r.value ==> !Accepts(resolver(points[j]), accepted)
    ensures r.None? ==> forall j :: from <= j < |points| ==> !Accepts(resolver(points[j]), accepted)
    decreases |points| - from
  {
    if from == |points| then None
    else if Accepts(resolver(points[from]), accepted) then Some(from)
    else FirstAcceptable(points, resolver, accepted, from + 1)
  }

  /** The stations of a list of picks, in order. */
  function Stations(picks: seq<Pick>): (stations: seq<Station>)
    ensures |stations| == |picks|
    ensures forall j :: 0 <= j < |picks| ==> stations[j] == picks[j].station
  {
    if picks == [] then [] else Stations(picks[..|picks| - 1]) + [picks[|picks| - 1].station]
  }

  /** The picks made for segments `0 .. k - 1`: segment `k - 1`, when present, contributes the first
      candidate whose station duplicates none of the stations picked before it, or nothing. */
  function Picks(segments: map<int, seq<Point>>, k: int, resolver: Resolver): seq<Pick>
    decreases if k > 0 then k else 0
  {
    if k <= 0 then []
    else
      var earlier := Picks(segments, k - 1, resolver);
      if k - 1 !in segments then earlier
      else
        var points := SearchPoints(segments[k - 1]);
        match FirstAcceptable(points, resolver, Stations(earlier), 0)
        case None => earlier
        case Some(j) => earlier + [Pick(k - 1, points[j], resolver(points[j]).value)]
  }

  /** The stations `find_charging_stations` returns for the first `k` segments. */
  function Assemble(segments: map<int, seq<Point>>, k: int, resolver: Resolver): seq<Station> {
    Stations(Picks(segments, k, resolver))
  }

  /** No accepted station is a duplicate of another one, in either order. */
  ghost predicate PairwiseDistinct(stations: seq<Station>) {
    forall a, b :: 0 <= a < |stations| && 0 <= b < |stations| && a != b ==>
      !Near(stations[a], stations[b], DuplicateThreshold)
  }

  /** The nested loop of the source: segment by segment, candidate by candidate, append the first
      lookup that is not a duplicate and leave the segment. Its result is `Assemble`, whose bound and
      distinctness are `AssembleBounded` and `AssembleDistinct`. */
  method FindChargingStations(segments: map<int, seq<Point>>, numberChargeRequired: int, resolver: Resolver)
    returns (optimalStations: seq<Station>)
    ensures optimalStations == Assemble(segments, numberChargeRequired, resolver)
  {
    optimalStations := [];
    var i := 0;
    while i < numberChargeRequired
      invariant 0 <= i <= (if numberChargeRequired > 0 then numberChargeRequired else 0)
      invariant optimalStations == Assemble(segments, i, resolver)
    {
      if i !in segments {
        SkippedSegment(segments, i, resolver);
        i := i + 1;
        continue;
      }
      var searchPoints := SearchPoints(segments[i]);
      ghost var before := optimalStations;
      var j := 0;
      while j < |searchPoints|
        invariant 0 <= j <= |searchPoints|
        invariant optimalStations == before
        invariant FirstAcceptable(searchPoints, resolver, before, 0) == FirstAcceptable(searchPoints, resolver, before, j)
      {
        var station := resolver(searchPoints[j]);
        ScanStep(searchPoints, resolver, before, j);
        if station.Some? && !IsDuplicate(station.value, optimalStations, DuplicateThreshold) {
          FoundInSegment(segments, i, resolver, j);
          optimalStations := optimalStations + [station.value];
          break;
        }
        j := j + 1;
      }
      if optimalStations == before {
        NothingInSegment(segments, i, resolver);
      }
      i := i + 1;
    }
    if numberChargeRequired <= 0 {
      NoSegmentsSearched(segments, numberChargeRequired, resolver);
    }
  }

  /** One step of the candidate scan: a keepable candidate ends it, any other is skipped. */
  lemma ScanStep(points: seq<Point>, resolver: Resolver, accepted: seq<Station>, j: nat)
    requires j < |points|
    ensures Accepts(resolver(points[j]), accepted) ==> FirstAcceptable(points, resolver, accepted, j) == Some(j)
    ensures !Accepts(resolver(points[j]), accepted) ==>
              FirstAcceptable(points, resolver, accepted, j) == FirstAcceptable(points, resolver, accepted, j + 1)
  {
  }

  /** A segment missing from the mapping is skipped. */
  lemma SkippedSegment(segments: map<int, seq<Point>>, i: int, resolver: Resolver)
    requires i >= 0 && i !in segments
    ensures Assemble(segments, i + 1, resolver) == Assemble(segments, i, resolver)
  {
  }

  /** A segment with no keepable candidate adds nothing. */
  lemma NothingInSegment(segments: map<int, seq<Point>>, i: int, resolver: Resolver)
    requires i >= 0 && i in segments
    requires FirstAcceptable(SearchPoints(segments[i]), resolver, Assemble(segments, i, resolver), 0).None?
    ensures Assemble(segments, i + 1, resolver) == Assemble(segments, i, resolver)
  {
  }

  /** A segment whose first keepable candidate is `j` adds that candidate's station. */
  lemma FoundInSegment(segments: map<int, seq<Point>>, i: int, resolver: Resolver, j: nat)
    requires i >= 0 && i in segments && j < |SearchPoints(segments[i])|
    requires FirstAcceptable(SearchPoints(segments[i]), resolver, Assemble(segments, i, resolver), 0) == Some(j)
    ensures resolver(SearchPoints(segments[i])[j]).Some?
    ensures Assemble(segments, i + 1, resolver) ==
              Assemble(segments, i, resolver) + [resolver(SearchPoints(segments[i])[j]).value]
  {
    AssembleStep(segments, i, resolver);
  }

  /** With no segment to search there is no stop. */
  lemma NoSegmentsSearched(segments: map<int, seq<Point>>, k: int, resolver: Resolver)
    requires k <= 0
    ensures Assemble(segments, k, resolver) == Assemble(segments, 0, resolver) == []
  {
  }

  /** At most one stop per searched segment: never more than `k`. */
  lemma {:induction false} AssembleBounded(segments: map<int, seq<Point>>, k: int, resolver: Resolver)
    ensures |Assemble(segments, k, resolver)| <= (if k > 0 then k else 0)
    decreases if k > 0 then k else 0
  {
    if k > 0 {
      AssembleBounded(segments, k - 1, resolver);
    }
  }

  /** One more segment: the stations for `i + 1` segments are those for `i`, plus the lookup answer of
      segment `i`'s first keepable candidate when it has one. */
  lemma AssembleStep(segments: map<int, seq<Point>>, i: int, resolver: Resolver)
    requires i >= 0
    ensures var olds := Assemble(segments, i, resolver);
            Assemble(segments, i + 1, resolver) ==
              if i !in segments then olds
              else
                var points := SearchPoints(segments[i]);
                match FirstAcceptable(points, resolver, olds, 0)
                case None => olds
                case Some(j) => olds + [resolver(points[j]).value]
  {
    var earlier := Picks(segments, i, resolver);
    var picks := Picks(segments, i + 1, resolver);
    if i in segments {
      var points := SearchPoints(segments[i]);
      var r := FirstAcceptable(points, resolver, Stations(earlier), 0);
      if r.Some? {
        var added := Pick(i, points[r.value], resolver(points[r.value]).value);
        assert picks == earlier + [added];
        assert picks[..|picks| - 1] == earlier;
      }
    }
  }

  /** A list stays pairwise non-duplicate when the station appended duplicates none of it. */
  lemma AppendDistinct(olds: seq<Station>, added: Station)
    requires PairwiseDistinct(olds)
    requires !IsDuplicate(added, olds, DuplicateThreshold)
    ensures PairwiseDistinct(olds + [added])
  {
    var stations := olds + [added];
    forall a, b | 0 <= a < |stations| && 0 <= b < |stations| && a != b
      ensures !Near(stations[a], stations[b], DuplicateThreshold)
    {
      if a < |olds| && b < |olds| {
        assert stations[a] == olds[a] && stations[b] == olds[b];
      } else if a < |olds| {
        assert stations[a] == olds[a];
      } else {
        assert stations[b] == olds[b];
        NearSymmetric(stations[a], stations[b], DuplicateThreshold);
      }
    }
  }

  /** One more segment adds at most one station, and only one that duplicates none before it. */
  lemma AssembleGrows(segments: map<int, seq<Point>>, k: int, resolver: Resolver)
    requires k > 0
    ensures var olds, news := Assemble(segments, k - 1, resolver), Assemble(segments, k, resolver);
            || news == olds
            || (&& |news| == |olds| + 1
                && news == olds + [news[|olds|]]
                && !IsDuplicate(news[|olds|], olds, DuplicateThreshold))
  {
    var i := k - 1;
    AssembleStep(segments, i, resolver);
    assert Assemble(segments, i + 1, resolver) == Assemble(segments, k, resolver);
  }

  /** The stations picked are pairwise non-duplicates. */
  lemma {:induction false} AssembleDistinct(segments: map<int, seq<Point>>, k: int, resolver: Resolver)
    ensures PairwiseDistinct(Assemble(segments, k, resolver))
    decreases if k > 0 then k else 0
  {
    if k > 0 {
      AssembleDistinct(segments, k - 1, resolver);
      AssembleGrows(segments, k, resolver);
      var olds, news := Assemble(segments, k - 1, resolver), Assemble(segments, k, resolver);
      if news != olds {
        AppendDistinct(olds, news[|olds|]);
      }
    }
  }

  /** Where each pick comes from: a searched segment below `k`, one of that segment's candidate points,
      and the lookup's answer for that point. */
  ghost predicate FromCandidate(pick: Pick, segments: map<int, seq<Point>>, k: int, resolver: Resolver) {
    && 0 <= pick.segment < k
    && pick.segment in segments
    && pick.point in SearchPoints(segments[pick.segment])
    && resolver(pick.point) == Some(pick.station)
  }

  /** Every pick comes from a candidate of a searched segment, and picks come in strictly increasing
      segment order, so no segment contributes twice. */
  ghost predicate WellFounded(picks: seq<Pick>, segments: map<int, seq<Point>>, k: int, resolver: Resolver) {
    && (forall j :: 0 <= j < |picks| ==> FromCandidate(picks[j], segments, k, resolver))
    && (forall a, b :: 0 <= a < b < |picks| ==> picks[a].segment < picks[b].segment)
  }

  lemma {:induction false} PicksWellFounded(segments: map<int, seq<Point>>, k: int, resolver: Resolver)
    ensures WellFounded(Picks(segments, k, resolver), segments, k, resolver)
    decreases if k > 0 then k else 0
  {
    if k > 0 {
      PicksWellFounded(segments, k - 1, resolver);
      PicksStep(segments, k, resolver);
      WellFoundedStep(Picks(segments, k - 1, resolver), Picks(segments, k, resolver), segments, k, resolver);
    }
  }

  lemma WellFoundedStep(earlier: seq<Pick>, picks: seq<Pick>, segments: map<int, seq<Point>>, k: int, resolver: Resolver)
    requires WellFounded(earlier, segments, k - 1, resolver)
    requires || picks == earlier
             || (&& |picks| == |earlier| + 1
                 && picks == earlier + [picks[|earlier|]]
                 && picks[|earlier|].segment == k - 1
                 && FromCandidate(picks[|earlier|], segments, k, resolver))
    ensures WellFounded(picks, segments, k, resolver)
  {
    WellFoundedWiden(earlier, segments, k, resolver);
    if picks != earlier {
      WellFoundedGrows(earlier, picks[|earlier|], segments, k, resolver);
    }
  }

  /** One more segment adds at most one pick: the one for segment `i`, from one of its candidates. */
  lemma PicksStep(segments: map<int, seq<Point>>, k: int, resolver: Resolver)
    requires k > 0
    ensures var earlier, picks := Picks(segments, k - 1, resolver), Picks(segments, k, resolver);
            || picks == earlier
            || (&& |picks| == |earlier| + 1
                && picks == earlier + [picks[|earlier|]]
                && picks[|earlier|].segment == k - 1
                && FromCandidate(picks[|earlier|], segments, k, resolver))
  {
    var earlier, picks := Picks(segments, k - 1, resolver), Picks(segments, k, resolver);
    if picks != earlier {
      var points := SearchPoints(segments[k - 1]);
      var r := FirstAcceptable(points, resolver, Stations(earlier), 0);
      assert points[r.value] in points;
    }
  }

  /** Allowing one more segment keeps every pick well founded. */
  lemma WellFoundedWiden(picks: seq<Pick>, segments: map<int, seq<Point>>, k: int, resolver: Resolver)
    requires WellFounded(picks, segments, k - 1, resolver)
    ensures WellFounded(picks, segments, k, resolver)
  {
    forall j | 0 <= j < |picks|
      ensures FromCandidate(picks[j], segments, k, resolver)
    {
      assert FromCandidate(picks[j], segments, k - 1, resolver);
    }
  }

  /** A pick for segment `k - 1` may follow the picks of the segments before it. */
  lemma WellFoundedGrows(earlier: seq<Pick>, added: Pick, segments: map<int, seq<Point>>, k: int, resolver: Resolver)
    requires WellFounded(earlier, segments, k - 1, resolver)
    requires added.segment == k - 1 && FromCandidate(added, segments, k, resolver)
    ensures WellFounded(earlier + [added], segments, k, resolver)
  {
    WellFoundedWiden(earlier, segments, k, resolver);
    var picks := earlier + [added];
    forall j | 0 <= j < |picks|
      ensures FromCandidate(picks[j], segments, k, resolver)
    {
      if j < |earlier| {
        assert picks[j] == earlier[j];
      }
    }
    forall a, b | 0 <= a < b < |picks|
      ensures picks[a].segment < picks[b].segment
    {
      assert picks[a] == earlier[a];
      assert FromCandidate(earlier[a], segments, k - 1, resolver);
      if b < |earlier| {
        assert picks[b] == earlier[b];
      }
    }
  }

  /** The pick's point is the FIRST candidate of its segment whose lookup duplicates none of the
      stations picked before it. */
  ghost predicate FirstOfItsSegment(pick: Pick, points: seq<Point>, resolver: Resolver, accepted: seq<Station>) {
    var r := FirstAcceptable(points, resolver, accepted, 0);
    r.Some? && points[r.value] == pick.point && resolver(pick.point) == Some(pick.station)
  }

  /** Pick `j` was made for a segment present in the partition, as the first keepable candidate
      given the stations of the picks before it. */
  ghost predicate GreedyAt(picks: seq<Pick>, j: nat, segments: map<int, seq<Point>>, resolver: Resolver)
    requires j < |picks|
  {
    picks[j].segment in segments &&
    FirstOfItsSegment(picks[j], SearchPoints(segments[picks[j].segment]), resolver, Stations(picks[..j]))
  }

  lemma {:induction false} PicksAreGreedy(segments: map<int, seq<Point>>, k: int, resolver: Resolver)
    ensures var picks := Picks(segments, k, resolver);
            forall j :: 0 <= j < |picks| ==> GreedyAt(picks, j, segments, resolver)
    decreases if k > 0 then k else 0
  {
    if k > 0 {
      PicksAreGreedy(segments, k - 1, resolver);
      var earlier := Picks(segments, k - 1, resolver);
      assert var p2 := Picks(segments, k - 1, resolver); forall j :: 0 <= j < |p2| ==> GreedyAt(p2, j, segments, resolver);
      var picks := Picks(segments, k, resolver);
      if picks != earlier {
        var points := SearchPoints(segments[k - 1]);
        var r := FirstAcceptable(points, resolver, Stations(earlier), 0);
        var added := Pick(k - 1, points[r.value], resolver(points[r.value]).value);
        assert picks == earlier + [added];
        forall j | 0 <= j < |picks|
          ensures GreedyAt(picks, j, segments, resolver)
        {
          if j < |earlier| {
            assert GreedyAt(earlier, j, segments, resolver);
            assert picks[..j] == earlier[..j];
            assert picks[j] == earlier[j];
          } else {
            assert picks[..j] == earlier;
          }
        }
      }
    }
  }

  /** The picks for fewer segments are a prefix of the picks for more. */
  lemma {:induction false} PicksPrefix(segments: map<int, seq<Point>>, i: int, k: int, resolver: Resolver)
    requires i <= k
    ensures var short, long := Picks(segments, i, resolver), Picks(segments, k, resolver);
            |short| <= |long| && long[..|short|] == short
    decreases k - i
  {
    if i < k {
      PicksPrefix(segments, i, k - 1, resolver);
      if k <= 0 {
        assert Picks(segments, i, resolver) == [] == Picks(segments, k, resolver);
      }
    }
  }

  /** A searched segment that contributes no stop had no candidate worth keeping: every candidate's
      lookup found nothing or a duplicate of a station picked for an earlier segment. */
  lemma SilentSegment(segments: map<int, seq<Point>>, k: int, resolver: Resolver, i: int)
    requires 0 <= i < k && i in segments
    requires forall j :: 0 <= j < |Picks(segments, k, resolver)| ==> Picks(segments, k, resolver)[j].segment != i
    ensures forall p :: p in SearchPoints(segments[i]) ==> !Accepts(resolver(p), Assemble(segments, i, resolver))
  {
    var before := Picks(segments, i, resolver);
    var after := Picks(segments, i + 1, resolver);
    PicksPrefix(segments, i + 1, k, resolver);
    var all := Picks(segments, k, resolver);
    assert |after| <= |all| && all[..|after|] == after;
    assert forall j :: 0 <= j < |after| ==> after[j] == all[j];
    var points := SearchPoints(segments[i]);
    var r := FirstAcceptable(points, resolver, Stations(before), 0);
    SegmentPickComesLast(segments, i, resolver);
    assert r.None?;
    forall p | p in points
      ensures !Accepts(resolver(p), Assemble(segments, i, resolver))
    {
      var m :| 0 <= m < |points| && points[m] == p;
    }
  }

  /** When segment `i` has a keepable candidate, its pick follows those of the earlier segments. */
  lemma SegmentPickComesLast(segments: map<int, seq<Point>>, i: int, resolver: Resolver)
    requires 0 <= i && i in segments
    ensures var before, after := Picks(segments, i, resolver), Picks(segments, i + 1, resolver);
            FirstAcceptable(SearchPoints(segments[i]), resolver, Stations(before), 0).Some? ==>
              |before| < |after| && after[|before|].segment == i
  {
  }

  /** A segment whose candidates all find nothing contributes no stop. */
  lemma UnservedSegment(segments: map<int, seq<Point>>, k: int, resolver: Resolver, i: int)
    requires i in segments
    requires forall p :: p in SearchPoints(segments[i]) ==> resolver(p) == None
    ensures forall j :: 0 <= j < |Picks(segments, k, resolver)| ==> Picks(segments, k, resolver)[j].segment != i
  {
    PicksWellFounded(segments, k, resolver);
  }

  /** Two partitions that agree on which of the keys `0 .. k - 1` exist and what they hold. */
  ghost predicate AgreeBelow(s1: map<int, seq<Point>>, s2: map<int, seq<Point>>, k: int) {
    forall i :: 0 <= i < k ==> (i in s1 <==> i in s2) && (i in s1 ==> s1[i] == s2[i])
  }

  /** Only the segments `0 .. k - 1` are searched: the others do not change the picks. */
  lemma {:induction false} OnlySearchedSegmentsMatter(s1: map<int, seq<Point>>, s2: map<int, seq<Point>>, k: int, resolver: Resolver)
    requires AgreeBelow(s1, s2, k)
    ensures Picks(s1, k, resolver) == Picks(s2, k, resolver)
    decreases if k > 0 then k else 0
  {
    if k > 0 {
      OnlySearchedSegmentsMatter(s1, s2, k - 1, resolver);
    }
  }

  /** Two lookups that answer alike on every candidate point of the segments `0 .. k - 1`. */
  ghost predicate SameOnCandidates(segments: map<int, seq<Point>>, k: int, r1: Resolver, r2: Resolver) {
    forall i, p :: 0 <= i < k && i in segments && p in SearchPoints(segments[i]) ==> r1(p) == r2(p)
  }

  /** The lookup is consulted only on candidate points of the searched segments. */
  lemma {:induction false} OnlyCandidatesAreLookedUp(segments: map<int, seq<Point>>, k: int, r1: Resolver, r2: Resolver)
    requires SameOnCandidates(segments, k, r1, r2)
    ensures Picks(segments, k, r1) == Picks(segments, k, r2)
    decreases if k > 0 then k else 0
  {
    if k > 0 {
      OnlyCandidatesAreLookedUp(segments, k - 1, r1, r2);
      var i := k - 1;
      if i in segments {
        var points := SearchPoints(segments[i]);
        var accepted := Stations(Picks(segments, k - 1, r1));
        SameFirstAcceptable(points, r1, r2, accepted, 0);
      }
    }
  }

  lemma {:induction false} SameFirstAcceptable(points: seq<Point>, r1: Resolver, r2: Resolver, accepted: seq<Station>, from: nat)
    requires from <= |points|
    requires forall p :: p in points ==> r1(p) == r2(p)
    ensures FirstAcceptable(points, r1, accepted, from) == FirstAcceptable(points, r2, accepted, from)
    decreases |points| - from
  {
    if from < |points| {
      assert r1(points[from]) == r2(points[from]);
      SameFirstAcceptable(points, r1, r2, accepted, from + 1);
    }
  }

  /** Example: segment 0 finds station `s1`. The first candidate of segment 1 finds `s2`, within the threshold
      of `s1`, so it is skipped as a duplicate; its second candidate finds `s3`, which is kept, and its third
      candidate is never looked up. */
  lemma ExampleNearbyCandidates(p: Point, q1: Point, q2: Point, q3: Point, s1: Station, s2: Station, s3: Station,
                                resolver: Resolver)
    requires resolver(p) == Some(s1) && resolver(q1) == Some(s2) && resolver(q2) == Some(s3)
    requires Near(s1, s2, DuplicateThreshold) && !Near(s1, s3, DuplicateThreshold)
    ensures var segments := map[0 := [p], 1 := [q1, q1, q2, q3]];
            && SearchPoints(segments[0]) == [p, p, p]
            && SearchPoints(segments[1]) == [q1, q2, q3]
            && Assemble(segments, 2, resolver) == [s1, s3]
  {
    var segments := map[0 := [p], 1 := [q1, q1, q2, q3]];
    assert SearchPoints(segments[0]) == [p, p, p];
    assert SearchPoints(segments[1]) == [q1, q2, q3];
    assert Picks(segments, 0, resolver) == [];
    assert FirstAcceptable([p, p, p], resolver, [], 0) == Some(0);
    assert Picks(segments, 1, resolver) == [Pick(0, p, s1)];
    assert Stations([Pick(0, p, s1)]) == [s1];
    assert IsDuplicate(s2, [s1], DuplicateThreshold);
    assert !IsDuplicate(s3, [s1], DuplicateThreshold);
    assert FirstAcceptable([q1, q2, q3], resolver, [s1], 0) == Some(1);
    assert Picks(segments, 2, resolver) == [Pick(0, p, s1), Pick(1, q2, s3)];
    assert Stations([Pick(0, p, s1), Pick(1, q2, s3)]) == [s1, s3];
  }
}
