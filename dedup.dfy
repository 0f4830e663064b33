/** `is_duplicate_station`: two stations closer than a threshold on both axes are the same station. */
module Dedup {
  import opened Geo

  /** The default proximity threshold, in degrees (about 11 m). */
  const DuplicateThreshold: real := 0.0001

  function Abs(x: real): (a: real)
    ensures a >= 0.0 && (a == x || a == -x)
  {
    if x < 0.0 then -x else x
  }

  /** Both coordinate differences strictly below the threshold. */
  predicate Near(s: Station, station: Station, threshold: real) {
    Abs(s.lat - station.lat) < threshold && Abs(s.lon - station.lon) < threshold
  }

  /** Python's `any(...)` over the existing stations, scanned from the front. */
  predicate IsDuplicate(station: Station, existing: seq<Station>, threshold: real)
    ensures IsDuplicate(station, existing, threshold) <==>
              exists i :: 0 <= i < |existing| && Near(existing[i], station, threshold)
  {
    |existing| > 0 && (Near(existing[0], station, threshold) || IsDuplicate(station, existing[1..], threshold))
  }

  /** Nearness does not depend on which station is the existing one. */
  lemma NearSymmetric(a: Station, b: Station, threshold: real)
    ensures Near(a, b, threshold) <==> Near(b, a, threshold)
  {
    assert Abs(a.lat - b.lat) == Abs(b.lat - a.lat);
    assert Abs(a.lon - b.lon) == Abs(b.lon - a.lon);
  }

  /** Against an empty list nothing is a duplicate. */
  lemma NothingDuplicatesNothing(station: Station, threshold: real)
    ensures !IsDuplicate(station, [], threshold)
  {
  }

  /** A station is a duplicate of a list grown by one exactly when it duplicates the old list or the new station. */
  lemma DuplicateOfExtended(station: Station, existing: seq<Station>, added: Station, threshold: real)
    ensures IsDuplicate(station, existing + [added], threshold) <==>
              IsDuplicate(station, existing, threshold) || Near(added, station, threshold)
  {
    var grown := existing + [added];
    if Near(added, station, threshold) {
      assert grown[|existing|] == added;
    }
    if IsDuplicate(station, existing, threshold) {
      var i :| 0 <= i < |existing| && Near(existing[i], station, threshold);
      assert grown[i] == existing[i];
    }
  }

  /** A station at the same coordinates as a listed one is always a duplicate (the threshold being positive). */
  lemma SamePlaceIsDuplicate(station: Station, existing: seq<Station>, i: nat, threshold: real)
    requires i < |existing| && existing[i].lat == station.lat && existing[i].lon == station.lon
    requires threshold > 0.0
    ensures IsDuplicate(station, existing, threshold)
  {
    assert Near(existing[i], station, threshold);
  }
}
