/**
 * When `new_currency` can panic, and concrete batches that show the order of
 * its checks: a later location of the batch takes part in the trip-time test
 * of an earlier one before it has itself been validated.
 */
module CurrencyScenarios {
  import opened Wrappers
  import opened FixedPoint
  import opened Geo
  import opened Currencies
  import opened CurrencyProperties

  lemma {:induction false} IntraSetNoPanic(dist: Distance, l1: Location, loc: seq<Location>, j: nat)
    requires j <= |loc| && ValidLongitude(l1.lon)
    requires forall k :: j <= k < |loc| ==> ValidLongitude(loc[k].lon)
    ensures CheckIntraSet(dist, l1, loc, j).Fail? ==> CheckIntraSet(dist, l1, loc, j).error == IntraSetTripTimeViolated
    decreases |loc| - j
  {
    if j < |loc| {
      if loc[j] != l1 {
        SolarTripTimeTotalOnValidLongitudes(dist, l1, loc[j]);
      }
      IntraSetNoPanic(dist, l1, loc, j + 1);
    }
  }

  lemma {:induction false} AgainstCurrencyNoPanic(dist: Distance, l1: Location, others: seq<Location>, m: nat)
    requires m <= |others| && ValidLongitude(l1.lon) && AllValid(others)
    ensures CheckAgainstCurrency(dist, l1, others, m).Fail? ==>
      CheckAgainstCurrency(dist, l1, others, m).error == TooCloseToRegisteredCurrency
    decreases |others| - m
  {
    if m < |others| {
      SolarTripTimeTotalOnValidLongitudes(dist, l1, others[m]);
      AgainstCurrencyNoPanic(dist, l1, others, m + 1);
    }
  }

  lemma {:induction false} GlobalNoPanic<AccountId>(dist: Distance, l1: Location, reg: Registry<AccountId>, k: nat)
    requires k <= |reg.currencyIdentifiers| && ValidLongitude(l1.lon) && WellFormed(reg)
    ensures CheckGlobal(dist, l1, reg, k).Fail? ==> CheckGlobal(dist, l1, reg, k).error == TooCloseToRegisteredCurrency
    decreases |reg.currencyIdentifiers| - k
  {
    if k < |reg.currencyIdentifiers| {
      WellFormedStoredValid(reg, k);
      AgainstCurrencyNoPanic(dist, l1, LocationsOf(reg, reg.currencyIdentifiers[k]), 0);
      GlobalNoPanic(dist, l1, reg, k + 1);
    }
  }

  /** With valid longitudes throughout, the chain of checks for one location never panics. */
  lemma CheckLocationNoPanic<AccountId>(dist: Distance, reg: Registry<AccountId>, loc: seq<Location>, l1: Location)
    requires WellFormed(reg) && ValidLongitude(l1.lon)
    requires forall k :: 0 <= k < |loc| ==> ValidLongitude(loc[k].lon)
    ensures CheckLocation(dist, reg, loc, l1).Fail? ==> !CheckLocation(dist, reg, loc, l1).error.Panicked?
  {
    IntraSetNoPanic(dist, l1, loc, 0);
    GlobalNoPanic(dist, l1, reg, 0);
  }

  /**
   * On a well-formed registry, `new_currency` can panic only when the batch
   * holds a location with a longitude outside [-180, 180] degrees: all the
   * `unwrap`s of `solar_trip_time` are safe on validated input.
   */
  lemma PanicsOnlyOnInvalidLongitude<AccountId>(
    dist: Distance, idOf: IdentifierOf<AccountId>, reg: Registry<AccountId>,
    loc: seq<Location>, bootstrappers: seq<AccountId>)
    requires WellFormed(reg)
    ensures var r := NewCurrency(dist, idOf, reg, loc, bootstrappers).result;
      r.Fail? && r.error.Panicked? ==> exists k :: 0 <= k < |loc| && !ValidLongitude(loc[k].lon)
  {
    var checked := CheckLocations(dist, reg, loc, 0);
    if checked.Fail? && forall k :: 0 <= k < |loc| ==> ValidLongitude(loc[k].lon) {
      var k :| 0 <= k < |loc| && CheckLocation(dist, reg, loc, loc[k]) == checked;
      CheckLocationNoPanic(dist, reg, loc, loc[k]);
    }
  }

  /**
   * An empty batch with a new identifier is registered: the loop over the
   * locations does not run, so no check can fail.
   */
  lemma EmptyBatchAccepted<AccountId>(
    dist: Distance, idOf: IdentifierOf<AccountId>, reg: Registry<AccountId>, bootstrappers: seq<AccountId>)
    requires idOf([], bootstrappers) !in reg.currencyIdentifiers
    ensures var r := NewCurrency(dist, idOf, reg, [], bootstrappers);
      r.result == Pass && r.state.locations[idOf([], bootstrappers)] == []
  {
  }

  const Origin: Location := Location(0, 0)
  /** A location whose longitude is the most negative raw value, far outside the dateline. */
  const FarWest: Location := Location(0, -0x8000_0000_0000_0000)
  /** The valid location one raw unit south of the North Pole. */
  const BelowPole: Location := Location(90 * One - 1, 0)
  /** The invalid location one raw unit beyond the North Pole. */
  const BeyondPole: Location := Location(90 * One + 1, 0)

  /**
   * A valid first location followed by one with an out-of-range longitude:
   * the trip time between them is computed before the second is validated,
   * and the longitude subtraction overflows, so the call panics. In the
   * other order the same locations are rejected as an invalid geolocation.
   */
  lemma UnvalidatedPartnerPanics<AccountId>(dist: Distance, idOf: IdentifierOf<AccountId>, bootstrappers: seq<AccountId>)
    ensures NewCurrency(dist, idOf, Genesis(), [Origin, FarWest], bootstrappers).result ==
      Fail(Panicked(LongitudeSubOverflow))
    ensures NewCurrency(dist, idOf, Genesis(), [FarWest, Origin], bootstrappers).result ==
      Fail(InvalidGeolocation)
  {
    assert SolarTripTime(dist, Origin, FarWest) == Failure(LongitudeSubOverflow);
    assert CheckIntraSet(dist, Origin, [Origin, FarWest], 1) == Fail(Panicked(LongitudeSubOverflow));
  }

  /**
   * The valid location just south of the North Pole followed by the invalid
   * one just beyond it, less than 83 m apart by the distance function: the
   * batch is rejected for violating the minimum trip time, not for the
   * invalid location.
   */
  lemma UnvalidatedPartnerReportedTooClose<AccountId>(dist: Distance, idOf: IdentifierOf<AccountId>, bootstrappers: seq<AccountId>)
    requires dist(BelowPole, BeyondPole) < MaxSpeedMps
    ensures NewCurrency(dist, idOf, Genesis(), [BelowPole, BeyondPole], bootstrappers).result ==
      Fail(IntraSetTripTimeViolated)
  {
    FlightTimeOfDistance(dist(BelowPole, BeyondPole));
    SolarTripTimeTotalOnValidLongitudes(dist, BelowPole, BeyondPole);
    assert CheckIntraSet(dist, BelowPole, [BelowPole, BeyondPole], 1) == Fail(IntraSetTripTimeViolated);
  }

  /**
   * A batch that repeats one valid location, far enough from the poles and
   * the dateline, is accepted into an empty registry: equal locations are
   * skipped by the separation test within the batch.
   */
  lemma RepeatedLocationAccepted<AccountId>(
    dist: Distance, idOf: IdentifierOf<AccountId>, l: Location, bootstrappers: seq<AccountId>)
    requires IsValidGeolocation(l)
    requires dist(l, NorthPole) >= DatelineDistanceM && dist(l, SouthPole) >= DatelineDistanceM
    requires dist(l, DatelineProxy(l)) >= DatelineDistanceM
    ensures NewCurrency(dist, idOf, Genesis(), [l, l], bootstrappers).result == Pass
  {
    assert CheckLocation(dist, Genesis<AccountId>(), [l, l], l) == Pass;
  }

  /**
   * A location already stored for a registered currency cannot be registered
   * again under another identifier when the distance function puts it less
   * than 83 m from itself: the global test does not skip equal locations.
   */
  lemma RegisteredLocationRejected<AccountId>(
    dist: Distance, idOf: IdentifierOf<AccountId>, reg: Registry<AccountId>,
    l: Location, c: nat, bootstrappers: seq<AccountId>)
    requires WellFormed(reg)
    requires c < |reg.currencyIdentifiers| && l in LocationsOf(reg, reg.currencyIdentifiers[c])
    requires idOf([l], bootstrappers) !in reg.currencyIdentifiers
    requires dist(l, l) < MaxSpeedMps
    requires dist(l, NorthPole) >= DatelineDistanceM && dist(l, SouthPole) >= DatelineDistanceM
    requires dist(l, DatelineProxy(l)) >= DatelineDistanceM
    ensures NewCurrency(dist, idOf, reg, [l], bootstrappers).result == Fail(TooCloseToRegisteredCurrency)
  {
    WellFormedStoredValid(reg, c);
    var others := LocationsOf(reg, reg.currencyIdentifiers[c]);
    var m :| 0 <= m < |others| && others[m] == l;
    FlightTimeOfDistance(dist(l, l));
    SolarTripTimeTotalOnValidLongitudes(dist, l, l);
    assert !MeetsMinimumTripTime(dist, l, others[m]);
    GlobalNoPanic(dist, l, reg, 0);
    assert CheckIntraSet(dist, l, [l], 0) == Pass;
  }

  /**
   * A single valid location too near a pole is refused for the pole, even
   * when it is also near the dateline: the pole test runs first.
   */
  lemma NearPoleRejected<AccountId>(
    dist: Distance, idOf: IdentifierOf<AccountId>, l: Location, bootstrappers: seq<AccountId>)
    requires IsValidGeolocation(l)
    requires dist(l, NorthPole) < DatelineDistanceM || dist(l, SouthPole) < DatelineDistanceM
    ensures NewCurrency(dist, idOf, Genesis(), [l], bootstrappers).result == Fail(TooNearPole)
  {
    assert CheckIntraSet(dist, l, [l], 0) == Pass;
  }

  /** A single valid location far from both poles but near its dateline probe is refused for the dateline. */
  lemma NearDatelineRejected<AccountId>(
    dist: Distance, idOf: IdentifierOf<AccountId>, l: Location, bootstrappers: seq<AccountId>)
    requires IsValidGeolocation(l)
    requires dist(l, NorthPole) >= DatelineDistanceM && dist(l, SouthPole) >= DatelineDistanceM
    requires dist(l, DatelineProxy(l)) < DatelineDistanceM
    ensures NewCurrency(dist, idOf, Genesis(), [l], bootstrappers).result == Fail(TooNearDateline)
  {
    assert CheckIntraSet(dist, l, [l], 0) == Pass;
  }
}
