/**
 Startup location acceptance in SafeNSound.py: `get_user_location` turns the
 outcome of the IP geolocation lookup into a `(lat, lon)` pair of optional floats,
 and the main block refuses to start unless both are truthy.

 Python's truthiness makes `0.0` as false as `None`, so a location on the equator
 or on the prime meridian stops startup just as a failed lookup does.
 `StartupLocation` models the check as written; `StartupLocationIntended` is the
 check that tells a failed lookup from a zero coordinate.
 */
module Startup {
  import opened PyValues
  import opened Nearest

  /** What the lookup gives back: it raises (any step of it), or the two parsed coordinates. */
  datatype LocationLookup = LookupFailed(message: string) | LookupOk(lat: real, lon: real)

  /** `get_user_location`: the coordinates, or `(None, None)` when anything in the lookup raised. */
  function GetUserLocation(lookup: LocationLookup): (r: (Option<real>, Option<real>))
    ensures r.0.None? <==> lookup.LookupFailed?
    ensures r.1.None? <==> lookup.LookupFailed?
    ensures lookup.LookupOk? ==> r.0.value == lookup.lat && r.1.value == lookup.lon
  {
    match lookup
    case LookupFailed(_) => (None, None)
    case LookupOk(lat, lon) => (Some(lat), Some(lon))
  }

  /** Python's truth value of a float or `None`. */
  predicate FloatTruthy(x: Option<real>)
  {
    x.Some? && x.value != 0.0
  }

  const LocationError := "Unable to determine user's location."

  /**
   The location check of the main block, as written: it accepts exactly a
   successful lookup whose coordinates are both non-zero, and otherwise raises
   the startup error.
   */
  function StartupLocation(lookup: LocationLookup): (r: Outcome<Coord>)
    ensures r.Returns? <==> lookup.LookupOk? && lookup.lat != 0.0 && lookup.lon != 0.0
    ensures r.Returns? ==> r.value == Coord(lookup.lat, lookup.lon)
    ensures r.Raises? ==> r.message == LocationError
  {
    var (userLat, userLon) := GetUserLocation(lookup);
    if FloatTruthy(userLat) && FloatTruthy(userLon) then Returns(Coord(userLat.value, userLon.value))
    else Raises(LocationError)
  }

  /** The check as intended: only a failed lookup stops startup. */
  function StartupLocationIntended(lookup: LocationLookup): (r: Outcome<Coord>)
    ensures r.Returns? <==> lookup.LookupOk?
    ensures r.Returns? ==> r.value == Coord(lookup.lat, lookup.lon)
    ensures r.Raises? ==> r.message == LocationError
  {
    var (userLat, userLon) := GetUserLocation(lookup);
    if userLat.Some? && userLon.Some? then Returns(Coord(userLat.value, userLon.value))
    else Raises(LocationError)
  }

  /**
   A lookup that places the user at Greenwich (longitude 0.0) succeeds, yet the
   check as written refuses to start; the intended check starts there.
   */
  lemma PrimeMeridianRejected()
    ensures GetUserLocation(LookupOk(51.4779, 0.0)) == (Some(51.4779), Some(0.0))
    ensures StartupLocation(LookupOk(51.4779, 0.0)) == Raises(LocationError)
    ensures StartupLocationIntended(LookupOk(51.4779, 0.0)) == Returns(Coord(51.4779, 0.0))
  {
  }

  /** The two checks differ exactly on successful lookups with a zero coordinate. */
  lemma StartupChecksDisagree(lookup: LocationLookup)
    ensures StartupLocation(lookup) != StartupLocationIntended(lookup)
            <==> lookup.LookupOk? && (lookup.lat == 0.0 || lookup.lon == 0.0)
  {
  }
}
