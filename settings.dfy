/** The page-wide constants declared at the top of public/js/core.js. */
module Settings {
  /** Lifetime, in days, of the `_userName` and `_userId` cookies. */
  const COOKIE_DAYS: int := 7
  /** Metres per kilometre: the circle is drawn in metres, the query is in kilometres. */
  const METERS_IN_KM: real := 1000.0
  /** Radius, in kilometres, of the query started once the location is saved. */
  const DEFAULT_RADIUS: real := 600.0
  /** Initial zoom level of the map. */
  const MAP_ZOOM: int := 6
  /** Longest display name accepted. */
  const NAME_MAX_CHAR: int := 25
}
