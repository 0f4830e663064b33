/** The values the charging-stop planner works on. */
module Geo {
  import opened Wrappers

  /** A route point as the routing provider returns it: longitude first, then latitude (decimal degrees). */
  datatype Point = Point(lon: real, lat: real)

  /** A charging station as the station lookup returns it. The lookup always fills `name`
      (with "Station inconnue" when the record has none) and never `address`; both are optional
      here because the output reshaping reads them with defaults. */
  datatype Station = Station(lat: real, lon: real, name: Option<string>, address: Option<string>)

  /** The external station lookup (an HTTP query of an open charging-station dataset
      around the point): the nearest station, or nothing. */
  type Resolver = Point -> Option<Station>
}
