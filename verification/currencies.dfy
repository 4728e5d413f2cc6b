/**
 * The currency registry and the `new_currency` dispatchable: a currency is a
 * batch of meetup locations plus bootstrapper accounts, registered under an
 * identifier derived from both. Registration succeeds only when every
 * location passes the per-location chain of checks, run location by location
 * in the order of the batch; the first failing check is the reported error.
 */
module Currencies {
  import opened Wrappers
  import opened FixedPoint
  import opened Geo

  /** An `H256`: 32 bytes. */
  type CurrencyIdentifier = h: seq<bv8> | |h| == 32 witness seq(32, _ => 0)

  /** The identifier function, a hash of the encoded `(locations, bootstrappers)` pair. */
  type IdentifierOf<!AccountId> = (seq<Location>, seq<AccountId>) -> CurrencyIdentifier

  /** The storage items `CurrencyIdentifiers`, `Locations` and `Bootstrappers`. */
  datatype Registry<AccountId> = Registry(
    currencyIdentifiers: seq<CurrencyIdentifier>,
    locations: map<CurrencyIdentifier, seq<Location>>,
    bootstrappers: map<CurrencyIdentifier, seq<AccountId>>)

  /** The registry before any currency is registered. */
  function Genesis<AccountId>(): Registry<AccountId> {
    Registry([], map[], map[])
  }

  /** The `Locations` getter: a missing key reads as the empty list, as storage maps do. */
  function LocationsOf<AccountId>(reg: Registry<AccountId>, cid: CurrencyIdentifier): seq<Location> {
    if cid in reg.locations then reg.locations[cid] else []
  }

  /** The errors `new_currency` returns, and the panics of `solar_trip_time`. */
  datatype DispatchError =
    | CurrencyAlreadyRegistered     // "currency already registered"
    | InvalidGeolocation            // "invalid geolocation specified"
    | IntraSetTripTimeViolated      // "minimum solar trip time violated within supplied locations"
    | TooNearPole                   // "minimum distance violated towards pole"
    | TooNearDateline               // "minimum distance violated towards dateline"
    | TooCloseToRegisteredCurrency  // "minimum distance violated towards other registered currency"
    | Panicked(site: Panic)

  /** The storage after a call, and what the call returned. */
  datatype Dispatched<AccountId> = Dispatched(state: Registry<AccountId>, result: Outcome<DispatchError>)

  /**
   * The inner loop over the supplied locations for `l1`, from index `j`:
   * locations equal to `l1` are skipped, every other one must be at least
   * the minimum solar trip time away.
   */
  function CheckIntraSet(dist: Distance, l1: Location, loc: seq<Location>, j: nat): (r: Outcome<DispatchError>)
    requires j <= |loc|
    ensures r.Pass? <==> forall k :: j <= k < |loc| && loc[k] != l1 ==> MeetsMinimumTripTime(dist, l1, loc[k])
    ensures r.Fail? ==> r.error == IntraSetTripTimeViolated || r.error.Panicked?
    decreases |loc| - j
  {
    if j == |loc| then Pass
    else if loc[j] == l1 then CheckIntraSet(dist, l1, loc, j + 1)
    else
      match SolarTripTime(dist, l1, loc[j])
      case Failure(p) => Fail(Panicked(p))
      case Success(t) =>
        if t >= MinSolarTripTimeS then CheckIntraSet(dist, l1, loc, j + 1)
        else Fail(IntraSetTripTimeViolated)
  }

  /** The loop over the locations of one registered currency, from index `m`; equal locations are not skipped. */
  function CheckAgainstCurrency(dist: Distance, l1: Location, others: seq<Location>, m: nat): (r: Outcome<DispatchError>)
    requires m <= |others|
    ensures r.Pass? <==> forall k :: m <= k < |others| ==> MeetsMinimumTripTime(dist, l1, others[k])
    ensures r.Fail? ==> r.error == TooCloseToRegisteredCurrency || r.error.Panicked?
    decreases |others| - m
  {
    if m == |others| then Pass
    else
      match SolarTripTime(dist, l1, others[m])
      case Failure(p) => Fail(Panicked(p))
      case Success(t) =>
        if t < MinSolarTripTimeS then Fail(TooCloseToRegisteredCurrency)
        else CheckAgainstCurrency(dist, l1, others, m + 1)
  }

  /** The loop over all registered currencies, from index `k` of `CurrencyIdentifiers`. */
  function CheckGlobal<AccountId>(dist: Distance, l1: Location, reg: Registry<AccountId>, k: nat): (r: Outcome<DispatchError>)
    requires k <= |reg.currencyIdentifiers|
    ensures r.Pass? <==>
      forall c, m :: k <= c < |reg.currencyIdentifiers| && 0 <= m < |LocationsOf(reg, reg.currencyIdentifiers[c])| ==>
        MeetsMinimumTripTime(dist, l1, LocationsOf(reg, reg.currencyIdentifiers[c])[m])
    ensures r.Fail? ==> r.error == TooCloseToRegisteredCurrency || r.error.Panicked?
    decreases |reg.currencyIdentifiers| - k
  {
    if k == |reg.currencyIdentifiers| then Pass
    else
      var here := CheckAgainstCurrency(dist, l1, LocationsOf(reg, reg.currencyIdentifiers[k]), 0);
      if here.Fail? then here else CheckGlobal(dist, l1, reg, k + 1)
  }

  /**
   * The body of the outer loop for one location `l1` of the batch `loc`:
   * validity, separation within the batch, distance to both poles, distance
   * to the dateline probe, separation from every registered currency.
   */
  function CheckLocation<AccountId>(dist: Distance, reg: Registry<AccountId>, loc: seq<Location>, l1: Location): (r: Outcome<DispatchError>)
    ensures r == Fail(InvalidGeolocation) <==> !IsValidGeolocation(l1)
    ensures r.Pass? ==>
      && IsValidGeolocation(l1)
      && dist(l1, NorthPole) >= DatelineDistanceM && dist(l1, SouthPole) >= DatelineDistanceM
      && dist(l1, DatelineProxy(l1)) >= DatelineDistanceM
    ensures r.Fail? ==> r.error != CurrencyAlreadyRegistered
    ensures r == Fail(IntraSetTripTimeViolated) <==>
      IsValidGeolocation(l1) && CheckIntraSet(dist, l1, loc, 0) == Fail(IntraSetTripTimeViolated)
    ensures r == Fail(TooNearPole) <==>
      && IsValidGeolocation(l1) && CheckIntraSet(dist, l1, loc, 0).Pass?
      && (dist(l1, NorthPole) < DatelineDistanceM || dist(l1, SouthPole) < DatelineDistanceM)
    ensures r == Fail(TooNearDateline) <==>
      && IsValidGeolocation(l1) && CheckIntraSet(dist, l1, loc, 0).Pass?
      && dist(l1, NorthPole) >= DatelineDistanceM && dist(l1, SouthPole) >= DatelineDistanceM
      && dist(l1, DatelineProxy(l1)) < DatelineDistanceM
    ensures r == Fail(TooCloseToRegisteredCurrency) ==>
      && IsValidGeolocation(l1) && CheckIntraSet(dist, l1, loc, 0).Pass?
      && dist(l1, NorthPole) >= DatelineDistanceM && dist(l1, SouthPole) >= DatelineDistanceM
      && dist(l1, DatelineProxy(l1)) >= DatelineDistanceM
  {
    if !IsValidGeolocation(l1) then Fail(InvalidGeolocation)
    else
      var intra := CheckIntraSet(dist, l1, loc, 0);
      if intra.Fail? then intra
      else if dist(l1, NorthPole) < DatelineDistanceM || dist(l1, SouthPole) < DatelineDistanceM then Fail(TooNearPole)
      else if dist(l1, DatelineProxy(l1)) < DatelineDistanceM then Fail(TooNearDateline)
      else CheckGlobal(dist, l1, reg, 0)
  }

  /**
   * The outer loop from index `i`: passes when every remaining location
   * passes, and otherwise reports the error of the first location that fails.
   */
  function CheckLocations<AccountId>(dist: Distance, reg: Registry<AccountId>, loc: seq<Location>, i: nat): (r: Outcome<DispatchError>)
    requires i <= |loc|
    ensures r.Pass? <==> forall k :: i <= k < |loc| ==> CheckLocation(dist, reg, loc, loc[k]).Pass?
    ensures r.Fail? ==>
      exists k :: i <= k < |loc| && CheckLocation(dist, reg, loc, loc[k]) == r &&
        (forall e :: i <= e < k ==> CheckLocation(dist, reg, loc, loc[e]).Pass?)
  {
    FirstFailure(l => CheckLocation(dist, reg, loc, l), loc, i)
  }

  /**
   * Runs `check` on `xs[i..]` in order and stops at the first failure: the
   * shape of every `for` loop with an early `?` return in the dispatchable.
   */
  function FirstFailure<T, E>(check: T -> Outcome<E>, xs: seq<T>, i: nat): (r: Outcome<E>)
    requires i <= |xs|
    ensures r.Pass? <==> forall k :: i <= k < |xs| ==> check(xs[k]).Pass?
    ensures r.Fail? ==>
      exists k :: i <= k < |xs| && check(xs[k]) == r && (forall e :: i <= e < k ==> check(xs[e]).Pass?)
    decreases |xs| - i
  {
    if i == |xs| then Pass
    else
      var here := check(xs[i]);
      if here.Fail? then here else FirstFailure(check, xs, i + 1)
  }

  /** The commit: append the identifier, store the locations and the bootstrappers under it. */
  function Register<AccountId>(reg: Registry<AccountId>, cid: CurrencyIdentifier, loc: seq<Location>, bootstrappers: seq<AccountId>): (r: Registry<AccountId>)
    ensures |r.currencyIdentifiers| == |reg.currencyIdentifiers| + 1
    ensures r.currencyIdentifiers[..|reg.currencyIdentifiers|] == reg.currencyIdentifiers
    ensures r.currencyIdentifiers[|reg.currencyIdentifiers|] == cid
    ensures r.locations.Keys == reg.locations.Keys + {cid} && r.locations[cid] == loc
    ensures r.bootstrappers.Keys == reg.bootstrappers.Keys + {cid} && r.bootstrappers[cid] == bootstrappers
    ensures forall x :: x in reg.locations && x != cid ==> r.locations[x] == reg.locations[x]
    ensures forall x :: x in reg.bootstrappers && x != cid ==> r.bootstrappers[x] == reg.bootstrappers[x]
  {
    Registry(
      reg.currencyIdentifiers + [cid],
      reg.locations[cid := loc],
      reg.bootstrappers[cid := bootstrappers])
  }

  /**
   * `new_currency`: rejects a batch whose identifier is already registered,
   * then runs the per-location checks, and commits only when all pass. A
   * failed call, rejected or panicked, leaves the storage as it was; a
   * successful one adds exactly one new identifier.
   */
  function NewCurrency<AccountId>(
    dist: Distance, idOf: IdentifierOf<AccountId>, reg: Registry<AccountId>,
    loc: seq<Location>, bootstrappers: seq<AccountId>): (r: Dispatched<AccountId>)
    ensures r.result.Fail? ==> r.state == reg
    ensures r.result.Pass? ==>
      && idOf(loc, bootstrappers) !in reg.currencyIdentifiers
      && r.state.currencyIdentifiers == reg.currencyIdentifiers + [idOf(loc, bootstrappers)]
  {
    var cid := idOf(loc, bootstrappers);
    if cid in reg.currencyIdentifiers then Dispatched(reg, Fail(CurrencyAlreadyRegistered))
    else
      var checked := CheckLocations(dist, reg, loc, 0);
      if checked.Fail? then Dispatched(reg, checked)
      else Dispatched(Register(reg, cid, loc, bootstrappers), Pass)
  }
}
