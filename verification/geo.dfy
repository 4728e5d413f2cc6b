/**
 * Locations, the geographic constants, the validity check and the solar trip
 * time estimate of the currencies module. Degrees are `I32F32` raw bits, so
 * one degree is 2^32. The haversine distance is a parameter `dist`.
 */
module Geo {
  import opened Wrappers
  import opened FixedPoint

  type Degree = Fixed

  /** A meetup location; equality is equality of both raw values, as the derived `PartialEq`. */
  datatype Location = Location(lat: Degree, lon: Degree)

  /** A great-circle distance in meters, as `haversine_distance` returns it. */
  type Distance = (Location, Location) -> uint32

  /** Maximum ground speed of an adversary, in m/s. */
  const MaxSpeedMps: int32 := 83
  /** Minimum trip time in local solar time between two meetup locations, in s. */
  const MinSolarTripTimeS: int32 := 1
  /** Meetups may not be closer than this to a pole or to the dateline, in m. */
  const DatelineDistanceM: uint32 := 1_000_000
  /** 24 h * 3600 s / 360 degrees. */
  const SecondsPerDegree: int := 240

  const NorthPole: Location := Location(90 * One, 0)
  const SouthPole: Location := Location(-90 * One, 0)
  const DatelineLon: Degree := 180 * One

  /** The probe used for the dateline test: same latitude, longitude +180 degrees. */
  function DatelineProxy(l: Location): Location {
    Location(l.lat, DatelineLon)
  }

  /** A longitude inside [-180, 180] degrees. */
  predicate ValidLongitude(lon: Degree) {
    -180 * One <= lon <= 180 * One
  }

  /** `is_valid_geolocation`: latitude within the poles, longitude within the dateline, bounds inclusive. */
  predicate IsValidGeolocation(loc: Location): (valid: bool)
    ensures valid <==> -90 * One <= loc.lat <= 90 * One && -180 * One <= loc.lon <= 180 * One
    ensures valid ==> ValidLongitude(loc.lon)
  {
    if loc.lat > NorthPole.lat then false
    else if loc.lat < SouthPole.lat then false
    else if loc.lon > DatelineLon then false
    else if loc.lon < -DatelineLon then false
    else true
  }

  /** The `.unwrap()` or overflowing operation of `solar_trip_time` that panicked. */
  datatype Panic =
    | LongitudeSubOverflow   // `checked_sub(to.lon).unwrap()`
    | LongitudeDivFailed     // `checked_div(Degree::from_num(1)).unwrap()`
    | LongitudeMulOverflow   // `checked_mul(Degree::from_num(240)).unwrap()`
    | FlightDivFailed        // `d.checked_div(MAX_SPEED_MPS).unwrap()`
    | AbsOverflow            // `dt.abs()` on the most negative value
    | TripTimeSubOverflow    // `tflight - dt` on `i32`

  /**
   * `solar_trip_time`: the flight time at the adversary's maximum speed minus
   * the local-time shift of the longitude difference, in seconds. The steps
   * and their order follow the source: distance cast to `i32`, longitude
   * difference, division by 1.0, multiplication by 240.0, flight time,
   * absolute value truncated to `i32`, subtraction.
   */
  function SolarTripTime(dist: Distance, from: Location, to: Location): (r: Result<int32, Panic>)
    ensures r.Success? ==> r.value == SolarTripTimeSeconds(dist, from, to)
  {
    var d := WrapToInt32(dist(from, to));
    var delta :- CheckedSub(from.lon, to.lon).ToResult(LongitudeSubOverflow);
    DivByOneIsIdentity(delta);
    MulByWholeIsExact(delta, SecondsPerDegree);
    var degrees :- CheckedDiv(delta, One).ToResult(LongitudeDivFailed);
    var shift :- CheckedMul(degrees, SecondsPerDegree * One).ToResult(LongitudeMulOverflow);
    var flight :- CheckedDivInt32(d, MaxSpeedMps).ToResult(FlightDivFailed);
    var magnitude :- CheckedAbs(shift).ToResult(AbsOverflow);
    CheckedSubInt32(flight, LossyToInt32(magnitude)).ToResult(TripTimeSubOverflow)
  }

  /** Seconds needed to cover the distance, the distance first read as an `i32`. */
  function FlightTimeSeconds(d: uint32): int {
    TruncDiv(WrapToInt32(d), MaxSpeedMps)
  }

  /** The local-time shift between two longitudes: whole seconds of |difference| * 240 s per degree, rounded down. */
  function LongitudeOffsetSeconds(a: Degree, b: Degree): nat {
    (AbsInt(a - b) * SecondsPerDegree) / One
  }

  /** The solar trip time as a mathematical integer, with no machine limits. */
  function SolarTripTimeSeconds(dist: Distance, from: Location, to: Location): int {
    FlightTimeSeconds(dist(from, to)) - LongitudeOffsetSeconds(from.lon, to.lon)
  }

  /** The trip time is computed without panicking and is at least the minimum. */
  predicate MeetsMinimumTripTime(dist: Distance, from: Location, to: Location) {
    var t := SolarTripTime(dist, from, to);
    t.Success? && t.value >= MinSolarTripTimeS
  }

  /**
   * `solar_trip_time` panics exactly when the longitude difference, that
   * difference times 240, or the final subtraction leaves its machine width;
   * otherwise it returns the mathematical value.
   */
  lemma SolarTripTimeExact(dist: Distance, from: Location, to: Location)
    ensures SolarTripTime(dist, from, to).Success? <==>
      && InInt64(from.lon - to.lon)
      && InInt64((from.lon - to.lon) * SecondsPerDegree)
      && InInt32(SolarTripTimeSeconds(dist, from, to))
    ensures SolarTripTime(dist, from, to).Success? ==>
      SolarTripTime(dist, from, to).value == SolarTripTimeSeconds(dist, from, to)
  {
    var delta := from.lon - to.lon;
    if InInt64(delta) {
      DivByOneIsIdentity(delta);
      MulByWholeIsExact(delta, SecondsPerDegree);
      if InInt64(delta * SecondsPerDegree) {
        var shift: Fixed := delta * SecondsPerDegree;
        AbsShiftFits(delta);
        assert AbsInt(shift) == AbsInt(delta) * SecondsPerDegree;
        assert CheckedAbs(shift) == Some(AbsInt(shift));
        var d := WrapToInt32(dist(from, to));
        TruncDivBound(d, MaxSpeedMps);
        assert CheckedDivInt32(d, MaxSpeedMps) == Some(FlightTimeSeconds(dist(from, to)));
        assert LossyToInt32(AbsInt(shift)) == LongitudeOffsetSeconds(from.lon, to.lon);
      }
    }
  }

  /** `abs` never overflows on a multiple of 240: 2^63 is not one. */
  lemma AbsShiftFits(delta: int)
    requires InInt64(delta * SecondsPerDegree)
    ensures InInt64(AbsInt(delta * SecondsPerDegree))
  {
  }

  /** On longitudes within [-180, 180] degrees the shift is at most 86400 s, i.e. one day, and does not depend on argument order. */
  lemma LongitudeOffsetBounds(a: Degree, b: Degree)
    requires ValidLongitude(a) && ValidLongitude(b)
    ensures LongitudeOffsetSeconds(a, b) <= 86400
    ensures LongitudeOffsetSeconds(a, b) == LongitudeOffsetSeconds(b, a)
  {
    assert AbsInt(a - b) <= 360 * One;
    assert AbsInt(a - b) * SecondsPerDegree <= 86400 * One;
  }

  /**
   * When both longitudes are within [-180, 180] degrees, `solar_trip_time`
   * never panics: none of its `checked_*` steps fails and the subtraction
   * fits in `i32`. This holds for every distance function.
   */
  lemma SolarTripTimeTotalOnValidLongitudes(dist: Distance, from: Location, to: Location)
    requires ValidLongitude(from.lon) && ValidLongitude(to.lon)
    ensures SolarTripTime(dist, from, to) == Success(SolarTripTimeSeconds(dist, from, to))
  {
    LongitudeOffsetBounds(from.lon, to.lon);
    var d := WrapToInt32(dist(from, to));
    TruncDivBound(d, MaxSpeedMps);
    FlightTimeBounds(dist(from, to));
    SolarTripTimeExact(dist, from, to);
  }

  /** The flight time lies within the `i32` quotients by 83. */
  lemma FlightTimeBounds(d: uint32)
    ensures -25873296 <= FlightTimeSeconds(d) <= 25873296
  {
    var w: int := WrapToInt32(d);
    if w >= 0 {
      assert FlightTimeSeconds(d) == w / 83;
    } else {
      assert FlightTimeSeconds(d) == -((-w) / 83);
    }
  }

  /** Without wrap-around the flight time is the distance divided by 83 rounded down; a distance of 2^31 m or more wraps to a flight time of at most zero. */
  lemma FlightTimeOfDistance(d: uint32)
    ensures d < 0x8000_0000 ==> FlightTimeSeconds(d) == d / MaxSpeedMps
    ensures d >= 0x8000_0000 ==> FlightTimeSeconds(d) <= 0
  {
  }

  /**
   * Whenever `solar_trip_time` returns, its result is at most the flight
   * time; between locations of equal longitude, whatever that longitude, it
   * returns exactly the flight time.
   */
  lemma TripTimeAtMostFlightTime(dist: Distance, from: Location, to: Location)
    ensures SolarTripTime(dist, from, to).Success? ==>
      SolarTripTime(dist, from, to).value <= FlightTimeSeconds(dist(from, to))
    ensures from.lon == to.lon ==>
      SolarTripTime(dist, from, to) == Success(FlightTimeSeconds(dist(from, to)))
  {
    if from.lon == to.lon {
      FlightTimeBounds(dist(from, to));
      assert LongitudeOffsetSeconds(from.lon, to.lon) == 0;
      SolarTripTimeExact(dist, from, to);
    }
  }

  /** With a symmetric distance and valid longitudes, `solar_trip_time` is symmetric. */
  lemma SolarTripTimeSymmetric(dist: Distance, a: Location, b: Location)
    requires ValidLongitude(a.lon) && ValidLongitude(b.lon)
    requires dist(a, b) == dist(b, a)
    ensures SolarTripTime(dist, a, b) == SolarTripTime(dist, b, a)
  {
    SolarTripTimeTotalOnValidLongitudes(dist, a, b);
    SolarTripTimeTotalOnValidLongitudes(dist, b, a);
    LongitudeOffsetBounds(a.lon, b.lon);
  }

  /** On valid longitudes, meeting the minimum is a statement about the mathematical trip time. */
  lemma MeetsMinimumOnValidLongitudes(dist: Distance, from: Location, to: Location)
    requires ValidLongitude(from.lon) && ValidLongitude(to.lon)
    ensures MeetsMinimumTripTime(dist, from, to) <==> SolarTripTimeSeconds(dist, from, to) >= MinSolarTripTimeS
  {
    SolarTripTimeTotalOnValidLongitudes(dist, from, to);
  }
}
