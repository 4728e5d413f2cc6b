/**
 * Properties of `new_currency`: an independent statement of which batches it
 * accepts, the registry invariants it preserves, what a successful call
 * changes, and that the invariants hold for every registry reachable from
 * genesis.
 */
module CurrencyProperties {
  import opened Wrappers
  import opened FixedPoint
  import opened Geo
  import opened Currencies

  /** Every location of the batch is a valid geolocation. */
  predicate AllValid(loc: seq<Location>) {
    forall i :: 0 <= i < |loc| ==> IsValidGeolocation(loc[i])
  }

  /** Every ordered pair of value-distinct locations of the batch is at least the minimum solar trip time apart. */
  predicate IntraSetSeparated(dist: Distance, loc: seq<Location>) {
    forall i, j :: 0 <= i < |loc| && 0 <= j < |loc| && loc[i] != loc[j] ==>
      SolarTripTimeSeconds(dist, loc[i], loc[j]) >= MinSolarTripTimeS
  }

  /** Every location is at least the minimum distance from both poles. */
  predicate FarFromPoles(dist: Distance, loc: seq<Location>) {
    forall i :: 0 <= i < |loc| ==>
      dist(loc[i], NorthPole) >= DatelineDistanceM && dist(loc[i], SouthPole) >= DatelineDistanceM
  }

  /** Every location is at least the minimum distance from the point on its latitude at +180 degrees. */
  predicate FarFromDateline(dist: Distance, loc: seq<Location>) {
    forall i :: 0 <= i < |loc| ==> dist(loc[i], DatelineProxy(loc[i])) >= DatelineDistanceM
  }

  /** Every location of `a` is at least the minimum solar trip time from every location of `b`. */
  predicate Separated(dist: Distance, a: seq<Location>, b: seq<Location>) {
    forall p, q :: 0 <= p < |a| && 0 <= q < |b| ==> SolarTripTimeSeconds(dist, a[p], b[q]) >= MinSolarTripTimeS
  }

  /** Every location of the batch is separated from every location of every registered currency. */
  predicate SeparatedFromRegistered<AccountId>(dist: Distance, reg: Registry<AccountId>, loc: seq<Location>) {
    forall c :: 0 <= c < |reg.currencyIdentifiers| ==>
      Separated(dist, loc, LocationsOf(reg, reg.currencyIdentifiers[c]))
  }

  /** The conditions under which a batch with a new identifier is registered. */
  predicate Admissible<AccountId>(dist: Distance, reg: Registry<AccountId>, loc: seq<Location>) {
    && AllValid(loc)
    && IntraSetSeparated(dist, loc)
    && FarFromPoles(dist, loc)
    && FarFromDateline(dist, loc)
    && SeparatedFromRegistered(dist, reg, loc)
  }

  /**
   * The storage invariant: identifiers are distinct, exactly the registered
   * identifiers have locations and bootstrappers, and every stored location
   * is a valid geolocation.
   */
  ghost predicate WellFormed<AccountId>(reg: Registry<AccountId>) {
    && (forall i, j :: 0 <= i < j < |reg.currencyIdentifiers| ==> reg.currencyIdentifiers[i] != reg.currencyIdentifiers[j])
    && (forall cid :: cid in reg.currencyIdentifiers <==> cid in reg.locations)
    && (forall cid :: cid in reg.currencyIdentifiers <==> cid in reg.bootstrappers)
    && (forall cid :: cid in reg.locations ==> AllValid(reg.locations[cid]))
  }

  /**
   * The anti-sybil invariant for a distance function: each registered batch
   * is separated within itself, and each is separated from every currency
   * registered before it.
   */
  predicate SeparatedRegistry<AccountId>(dist: Distance, reg: Registry<AccountId>) {
    && (forall c :: 0 <= c < |reg.currencyIdentifiers| ==>
          IntraSetSeparated(dist, LocationsOf(reg, reg.currencyIdentifiers[c])))
    && (forall c, e :: 0 <= e < c < |reg.currencyIdentifiers| ==>
          Separated(dist, LocationsOf(reg, reg.currencyIdentifiers[c]), LocationsOf(reg, reg.currencyIdentifiers[e])))
  }

  /** The checks for one location `l1` of the batch, stated on the mathematical trip time. */
  predicate LocationAdmissible<AccountId>(dist: Distance, reg: Registry<AccountId>, loc: seq<Location>, l1: Location) {
    && IsValidGeolocation(l1)
    && (forall j :: 0 <= j < |loc| && loc[j] != l1 ==> SolarTripTimeSeconds(dist, l1, loc[j]) >= MinSolarTripTimeS)
    && dist(l1, NorthPole) >= DatelineDistanceM && dist(l1, SouthPole) >= DatelineDistanceM
    && dist(l1, DatelineProxy(l1)) >= DatelineDistanceM
    && (forall c :: 0 <= c < |reg.currencyIdentifiers| ==> Separated(dist, [l1], LocationsOf(reg, reg.currencyIdentifiers[c])))
  }

  lemma WellFormedStoredValid<AccountId>(reg: Registry<AccountId>, c: nat)
    requires WellFormed(reg) && c < |reg.currencyIdentifiers|
    ensures AllValid(LocationsOf(reg, reg.currencyIdentifiers[c]))
  {
    assert reg.currencyIdentifiers[c] in reg.currencyIdentifiers;
  }

  /** On a well-formed registry, the loop over the registered currencies passes exactly when `l1` is separated from each of them. */
  lemma CheckGlobalIff<AccountId>(dist: Distance, reg: Registry<AccountId>, l1: Location)
    requires WellFormed(reg) && IsValidGeolocation(l1)
    ensures CheckGlobal(dist, l1, reg, 0).Pass? <==>
      forall c :: 0 <= c < |reg.currencyIdentifiers| ==> Separated(dist, [l1], LocationsOf(reg, reg.currencyIdentifiers[c]))
  {
    var ids := reg.currencyIdentifiers;
    forall c, m | 0 <= c < |ids| && 0 <= m < |LocationsOf(reg, ids[c])|
      ensures MeetsMinimumTripTime(dist, l1, LocationsOf(reg, ids[c])[m]) <==>
        SolarTripTimeSeconds(dist, l1, LocationsOf(reg, ids[c])[m]) >= MinSolarTripTimeS
    {
      WellFormedStoredValid(reg, c);
      MeetsMinimumOnValidLongitudes(dist, l1, LocationsOf(reg, ids[c])[m]);
    }
    if CheckGlobal(dist, l1, reg, 0).Pass? {
      forall c | 0 <= c < |ids| ensures Separated(dist, [l1], LocationsOf(reg, ids[c])) {
        forall p, q | 0 <= p < 1 && 0 <= q < |LocationsOf(reg, ids[c])|
          ensures SolarTripTimeSeconds(dist, [l1][p], LocationsOf(reg, ids[c])[q]) >= MinSolarTripTimeS
        {
          assert MeetsMinimumTripTime(dist, l1, LocationsOf(reg, ids[c])[q]);
        }
      }
    } else {
      var c, m :| 0 <= c < |ids| && 0 <= m < |LocationsOf(reg, ids[c])| &&
        !MeetsMinimumTripTime(dist, l1, LocationsOf(reg, ids[c])[m]);
      assert !Separated(dist, [l1], LocationsOf(reg, ids[c])) by {
        assert [l1][0] == l1;
      }
    }
  }

  /** On a batch of valid locations, the loop within the batch passes exactly when `l1` is far enough from every location not equal to it. */
  lemma CheckIntraSetIff(dist: Distance, loc: seq<Location>, l1: Location)
    requires AllValid(loc) && IsValidGeolocation(l1)
    ensures CheckIntraSet(dist, l1, loc, 0).Pass? <==>
      forall j :: 0 <= j < |loc| && loc[j] != l1 ==> SolarTripTimeSeconds(dist, l1, loc[j]) >= MinSolarTripTimeS
  {
    forall j | 0 <= j < |loc|
      ensures MeetsMinimumTripTime(dist, l1, loc[j]) <==> SolarTripTimeSeconds(dist, l1, loc[j]) >= MinSolarTripTimeS
    {
      MeetsMinimumOnValidLongitudes(dist, l1, loc[j]);
    }
  }

  /**
   * On a well-formed registry and a batch of valid locations, the chain of
   * checks for one location passes exactly when that location is admissible.
   */
  lemma CheckLocationIff<AccountId>(dist: Distance, reg: Registry<AccountId>, loc: seq<Location>, l1: Location)
    requires WellFormed(reg) && AllValid(loc)
    ensures CheckLocation(dist, reg, loc, l1).Pass? <==> LocationAdmissible(dist, reg, loc, l1)
  {
    if IsValidGeolocation(l1) {
      CheckIntraSetIff(dist, loc, l1);
      CheckGlobalIff(dist, reg, l1);
    }
  }

  /** The five batch-level conditions are the per-location conditions for every location. */
  lemma AdmissiblePerLocation<AccountId>(dist: Distance, reg: Registry<AccountId>, loc: seq<Location>)
    ensures Admissible(dist, reg, loc) <==> forall k :: 0 <= k < |loc| ==> LocationAdmissible(dist, reg, loc, loc[k])
  {
    var ids := reg.currencyIdentifiers;
    if forall k :: 0 <= k < |loc| ==> LocationAdmissible(dist, reg, loc, loc[k]) {
      forall c | 0 <= c < |ids| ensures Separated(dist, loc, LocationsOf(reg, ids[c])) {
        forall p, q | 0 <= p < |loc| && 0 <= q < |LocationsOf(reg, ids[c])|
          ensures SolarTripTimeSeconds(dist, loc[p], LocationsOf(reg, ids[c])[q]) >= MinSolarTripTimeS
        {
          assert LocationAdmissible(dist, reg, loc, loc[p]);
          assert Separated(dist, [loc[p]], LocationsOf(reg, ids[c]));
          assert [loc[p]][0] == loc[p];
        }
      }
    }
    if Admissible(dist, reg, loc) {
      forall k | 0 <= k < |loc| ensures LocationAdmissible(dist, reg, loc, loc[k]) {
        forall c | 0 <= c < |ids| ensures Separated(dist, [loc[k]], LocationsOf(reg, ids[c])) {
          assert Separated(dist, loc, LocationsOf(reg, ids[c]));
        }
      }
    }
  }

  /**
   * On a well-formed registry, `new_currency` accepts exactly the batches
   * whose identifier is new and that are admissible, for every distance and
   * identifier function.
   */
  lemma AcceptsExactlyAdmissible<AccountId>(
    dist: Distance, idOf: IdentifierOf<AccountId>, reg: Registry<AccountId>,
    loc: seq<Location>, bootstrappers: seq<AccountId>)
    requires WellFormed(reg)
    ensures NewCurrency(dist, idOf, reg, loc, bootstrappers).result.Pass? <==>
      idOf(loc, bootstrappers) !in reg.currencyIdentifiers && Admissible(dist, reg, loc)
  {
    var checked := CheckLocations(dist, reg, loc, 0);
    AdmissiblePerLocation(dist, reg, loc);
    if checked.Pass? {
      assert AllValid(loc) by {
        forall k | 0 <= k < |loc| ensures IsValidGeolocation(loc[k]) {
          assert CheckLocation(dist, reg, loc, loc[k]).Pass?;
        }
      }
      forall k | 0 <= k < |loc| ensures LocationAdmissible(dist, reg, loc, loc[k]) {
        CheckLocationIff(dist, reg, loc, loc[k]);
      }
    }
    if Admissible(dist, reg, loc) {
      forall k | 0 <= k < |loc| ensures CheckLocation(dist, reg, loc, loc[k]).Pass? {
        CheckLocationIff(dist, reg, loc, loc[k]);
      }
    }
  }

  /** `new_currency` reports a duplicate exactly when the identifier of the batch is already registered. */
  lemma RejectsKnownIdentifier<AccountId>(
    dist: Distance, idOf: IdentifierOf<AccountId>, reg: Registry<AccountId>,
    loc: seq<Location>, bootstrappers: seq<AccountId>)
    ensures NewCurrency(dist, idOf, reg, loc, bootstrappers).result == Fail(CurrencyAlreadyRegistered) <==>
      idOf(loc, bootstrappers) in reg.currencyIdentifiers
  {
    var checked := CheckLocations(dist, reg, loc, 0);
    if checked.Fail? {
      var k :| 0 <= k < |loc| && CheckLocation(dist, reg, loc, loc[k]) == checked;
    }
  }

  /**
   * A successful call appends the new identifier, stores the batch and the
   * bootstrappers under it, and leaves every other entry as it was.
   */
  lemma NewCurrencyCommit<AccountId>(
    dist: Distance, idOf: IdentifierOf<AccountId>, reg: Registry<AccountId>,
    loc: seq<Location>, bootstrappers: seq<AccountId>)
    requires NewCurrency(dist, idOf, reg, loc, bootstrappers).result.Pass?
    ensures var post := NewCurrency(dist, idOf, reg, loc, bootstrappers).state;
      var cid := idOf(loc, bootstrappers);
      && post.currencyIdentifiers == reg.currencyIdentifiers + [cid]
      && cid in post.locations && post.locations[cid] == loc
      && cid in post.bootstrappers && post.bootstrappers[cid] == bootstrappers
      && (forall x :: x != cid ==> (x in post.locations <==> x in reg.locations))
      && (forall x :: x != cid && x in reg.locations ==> post.locations[x] == reg.locations[x])
      && (forall x :: x != cid ==> (x in post.bootstrappers <==> x in reg.bootstrappers))
      && (forall x :: x != cid && x in reg.bootstrappers ==> post.bootstrappers[x] == reg.bootstrappers[x])
  {
  }

  /** `new_currency` keeps the storage invariant, whatever it returns. */
  lemma NewCurrencyPreservesWellFormed<AccountId>(
    dist: Distance, idOf: IdentifierOf<AccountId>, reg: Registry<AccountId>,
    loc: seq<Location>, bootstrappers: seq<AccountId>)
    requires WellFormed(reg)
    ensures WellFormed(NewCurrency(dist, idOf, reg, loc, bootstrappers).state)
  {
    var r := NewCurrency(dist, idOf, reg, loc, bootstrappers);
    if r.result.Pass? {
      var cid := idOf(loc, bootstrappers);
      var ids := reg.currencyIdentifiers;
      var post := Register(reg, cid, loc, bootstrappers);
      assert r.state == post && cid !in ids;
      assert CheckLocations(dist, reg, loc, 0).Pass?;
      assert AllValid(loc) by {
        forall k | 0 <= k < |loc| ensures IsValidGeolocation(loc[k]) {
          assert CheckLocation(dist, reg, loc, loc[k]).Pass?;
        }
      }
      var ids' := post.currencyIdentifiers;
      assert ids' == ids + [cid];
      forall i, j | 0 <= i < j < |ids'| ensures ids'[i] != ids'[j] {
        if j == |ids| {
          assert ids'[i] == ids[i];
        }
      }
      forall x ensures x in ids' <==> x in post.locations {
        assert x in ids' <==> x in ids || x == cid;
      }
      forall x ensures x in ids' <==> x in post.bootstrappers {
        assert x in ids' <==> x in ids || x == cid;
      }
      forall x | x in post.locations ensures AllValid(post.locations[x]) {
        if x != cid {
          assert post.locations[x] == reg.locations[x];
        }
      }
    }
  }

  /** `new_currency` keeps the registry separated under the distance function it is given. */
  lemma NewCurrencyPreservesSeparation<AccountId>(
    dist: Distance, idOf: IdentifierOf<AccountId>, reg: Registry<AccountId>,
    loc: seq<Location>, bootstrappers: seq<AccountId>)
    requires WellFormed(reg) && SeparatedRegistry(dist, reg)
    ensures SeparatedRegistry(dist, NewCurrency(dist, idOf, reg, loc, bootstrappers).state)
  {
    var r := NewCurrency(dist, idOf, reg, loc, bootstrappers);
    if r.result.Pass? {
      AcceptsExactlyAdmissible(dist, idOf, reg, loc, bootstrappers);
      var cid := idOf(loc, bootstrappers);
      var ids := reg.currencyIdentifiers;
      var post := r.state;
      assert post.currencyIdentifiers == ids + [cid];
      assert LocationsOf(post, cid) == loc;
      forall c | 0 <= c < |ids| ensures LocationsOf(post, post.currencyIdentifiers[c]) == LocationsOf(reg, ids[c]) {
        assert post.currencyIdentifiers[c] == ids[c];
        assert ids[c] in ids;
      }
      forall c | 0 <= c < |post.currencyIdentifiers|
        ensures IntraSetSeparated(dist, LocationsOf(post, post.currencyIdentifiers[c]))
      {
        if c == |ids| {
          assert post.currencyIdentifiers[c] == cid;
        }
      }
      forall c, e | 0 <= e < c < |post.currencyIdentifiers|
        ensures Separated(dist, LocationsOf(post, post.currencyIdentifiers[c]), LocationsOf(post, post.currencyIdentifiers[e]))
      {
        if c == |ids| {
          assert post.currencyIdentifiers[c] == cid;
          assert Separated(dist, loc, LocationsOf(reg, ids[e]));
        }
      }
    }
  }

  /** Submitting a batch that was just registered, with the same bootstrappers, is rejected as a duplicate. */
  lemma ResubmissionRejected<AccountId>(
    dist: Distance, idOf: IdentifierOf<AccountId>, reg: Registry<AccountId>,
    loc: seq<Location>, bootstrappers: seq<AccountId>)
    requires NewCurrency(dist, idOf, reg, loc, bootstrappers).result.Pass?
    ensures var post := NewCurrency(dist, idOf, reg, loc, bootstrappers).state;
      NewCurrency(dist, idOf, post, loc, bootstrappers) == Dispatched(post, Fail(CurrencyAlreadyRegistered))
  {
    var post := NewCurrency(dist, idOf, reg, loc, bootstrappers).state;
    assert idOf(loc, bootstrappers) in post.currencyIdentifiers by {
      assert post.currencyIdentifiers[|reg.currencyIdentifiers|] == idOf(loc, bootstrappers);
    }
  }

  /** Admissibility depends only on which locations the batch holds, not on their order or repetition. */
  lemma AdmissibleIgnoresOrder<AccountId>(dist: Distance, reg: Registry<AccountId>, loc: seq<Location>, loc': seq<Location>)
    requires forall l :: l in loc <==> l in loc'
    ensures Admissible(dist, reg, loc) <==> Admissible(dist, reg, loc')
  {
    if Admissible(dist, reg, loc) {
      AdmissibleTransfers(dist, reg, loc, loc');
    }
    if Admissible(dist, reg, loc') {
      AdmissibleTransfers(dist, reg, loc', loc);
    }
  }

  lemma AdmissibleTransfers<AccountId>(dist: Distance, reg: Registry<AccountId>, loc: seq<Location>, loc': seq<Location>)
    requires forall l :: l in loc' ==> l in loc
    requires Admissible(dist, reg, loc)
    ensures Admissible(dist, reg, loc')
  {
    var ids := reg.currencyIdentifiers;
    forall i, j | 0 <= i < |loc'| && 0 <= j < |loc'| && loc'[i] != loc'[j]
      ensures SolarTripTimeSeconds(dist, loc'[i], loc'[j]) >= MinSolarTripTimeS
    {
      assert loc'[i] in loc && loc'[j] in loc;
    }
    forall i | 0 <= i < |loc'|
      ensures IsValidGeolocation(loc'[i])
      ensures dist(loc'[i], NorthPole) >= DatelineDistanceM && dist(loc'[i], SouthPole) >= DatelineDistanceM
      ensures dist(loc'[i], DatelineProxy(loc'[i])) >= DatelineDistanceM
    {
      assert loc'[i] in loc;
    }
    forall c | 0 <= c < |ids| ensures Separated(dist, loc', LocationsOf(reg, ids[c])) {
      forall p, q | 0 <= p < |loc'| && 0 <= q < |LocationsOf(reg, ids[c])|
        ensures SolarTripTimeSeconds(dist, loc'[p], LocationsOf(reg, ids[c])[q]) >= MinSolarTripTimeS
      {
        assert loc'[p] in loc;
        assert Separated(dist, loc, LocationsOf(reg, ids[c]));
      }
    }
  }

  /**
   * Whether a batch is accepted does not depend on the order of its
   * locations, as long as the reordered batch also has a new identifier;
   * only the reported error can differ.
   */
  lemma AcceptanceIgnoresOrder<AccountId>(
    dist: Distance, idOf: IdentifierOf<AccountId>, reg: Registry<AccountId>,
    loc: seq<Location>, loc': seq<Location>, bootstrappers: seq<AccountId>)
    requires WellFormed(reg)
    requires forall l :: l in loc <==> l in loc'
    requires idOf(loc, bootstrappers) !in reg.currencyIdentifiers
    requires idOf(loc', bootstrappers) !in reg.currencyIdentifiers
    ensures NewCurrency(dist, idOf, reg, loc, bootstrappers).result.Pass? <==>
      NewCurrency(dist, idOf, reg, loc', bootstrappers).result.Pass?
  {
    AcceptsExactlyAdmissible(dist, idOf, reg, loc, bootstrappers);
    AcceptsExactlyAdmissible(dist, idOf, reg, loc', bootstrappers);
    AdmissibleIgnoresOrder(dist, reg, loc, loc');
  }

  /** The empty registry at genesis satisfies both invariants. */
  lemma GenesisInvariants<AccountId>(dist: Distance)
    ensures WellFormed(Genesis<AccountId>()) && SeparatedRegistry(dist, Genesis<AccountId>())
  {
  }

  /** One `new_currency` call: the batch and the bootstrappers. */
  datatype Call<AccountId> = Call(loc: seq<Location>, bootstrappers: seq<AccountId>)

  /** The storage after the calls, in order, starting from `reg`. */
  function Replay<AccountId>(dist: Distance, idOf: IdentifierOf<AccountId>, reg: Registry<AccountId>, calls: seq<Call<AccountId>>): Registry<AccountId>
    decreases |calls|
  {
    if |calls| == 0 then reg
    else Replay(dist, idOf, NewCurrency(dist, idOf, reg, calls[0].loc, calls[0].bootstrappers).state, calls[1..])
  }

  /** Every sequence of calls, successful or not, keeps both invariants. */
  lemma {:induction false} ReplayPreservesInvariants<AccountId>(
    dist: Distance, idOf: IdentifierOf<AccountId>, reg: Registry<AccountId>, calls: seq<Call<AccountId>>)
    requires WellFormed(reg) && SeparatedRegistry(dist, reg)
    ensures WellFormed(Replay(dist, idOf, reg, calls)) && SeparatedRegistry(dist, Replay(dist, idOf, reg, calls))
    decreases |calls|
  {
    if |calls| > 0 {
      var next := NewCurrency(dist, idOf, reg, calls[0].loc, calls[0].bootstrappers).state;
      NewCurrencyPreservesWellFormed(dist, idOf, reg, calls[0].loc, calls[0].bootstrappers);
      NewCurrencyPreservesSeparation(dist, idOf, reg, calls[0].loc, calls[0].bootstrappers);
      ReplayPreservesInvariants(dist, idOf, next, calls[1..]);
    }
  }

  /** Every registry reachable from genesis is well formed and separated. */
  lemma ReachableInvariants<AccountId>(dist: Distance, idOf: IdentifierOf<AccountId>, calls: seq<Call<AccountId>>)
    ensures WellFormed(Replay(dist, idOf, Genesis(), calls))
    ensures SeparatedRegistry(dist, Replay(dist, idOf, Genesis(), calls))
  {
    GenesisInvariants<AccountId>(dist);
    ReplayPreservesInvariants(dist, idOf, Genesis(), calls);
  }
}
