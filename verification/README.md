# Encointer currencies: a Dafny model of currency registration

This project models the registration of a new currency in the Encointer
currencies pallet (`src/lib.rs`). A currency is a batch of meetup locations
plus a list of bootstrapper accounts. `new_currency` registers it under an
identifier derived from both. Registration is refused when:

- the identifier is already known;
- a location is not a valid geolocation;
- two distinct locations of the batch are less than the minimum solar trip time apart;
- a location is too near a pole or the dateline;
- a location is too close, in solar trip time, to a location of an already registered currency.

The model is functional. Its parts:

- `Location` is a pair of raw `I32F32` values, so one degree is 2^32. This follows the `Degree = I32F32` type and the `<< 32` constants, not the "8 integer, 24 fractional bits" comment at `src/lib.rs:53`.
- The storage items `CurrencyIdentifiers`, `Locations` and `Bootstrappers` form an immutable `Registry` record. A missing map key reads as the empty list, as storage maps do.
- `new_currency` is a pure function. It returns the storage after the call together with the call's outcome.
- The haversine distance and the identifier hash are function parameters. The distance is a total function to `u32`. The theorems about `new_currency` hold for every such distance function and every hash; only `SolarTripTimeSymmetric` and the concrete scenarios `UnvalidatedPartnerReportedTooClose`, `RepeatedLocationAccepted`, `RegisteredLocationRejected`, `NearPoleRejected` and `NearDatelineRejected` add hypotheses on the distance.

Files and modules:

- `wrappers.dfy` (`Wrappers`): `Option`, `Result` and `Outcome`.
- `fixed_point.dfy` (`FixedPoint`): the machine operations `solar_trip_time` uses. These are `checked_sub`, `checked_div` and `checked_mul` on `I32F32`, `abs`, the lossy cast to `i32`, the wrapping `u32 as i32`, `i32::checked_div` truncating toward zero, and `i32` subtraction.
- `geo.dfy` (`Geo`): the constants, `is_valid_geolocation` and `solar_trip_time`. `solar_trip_time` returns either an `i32` or the `Panic` naming the `unwrap` or overflow that failed.
- `currencies.dfy` (`Currencies`): the registry, the loops of `new_currency` as recursive functions, and `new_currency` itself.
- `currency_properties.dfy` (`CurrencyProperties`): the properties of `new_currency`:
  - an independent definition (`Admissible`) of which batches are accepted, with the theorem that `new_currency` accepts exactly those;
  - the storage invariant and the separation invariant it preserves, which hold at genesis and so on every reachable storage;
  - what a successful call changes;
  - order independence of the accept/reject outcome.
- `currency_scenarios.dfy` (`CurrencyScenarios`): when `new_currency` can panic, and concrete batches that show the order of the checks.

The checks run per location, not stage by stage, exactly as in the loop at
`src/lib.rs:105-136`. For location `l1` they run in this order:

1. validity;
2. trip time to every other location of the batch;
3. distance to both poles;
4. distance to the probe at the same latitude and longitude +180°;
5. trip time to every location of every registered currency.

The reported error is the first failing check of the first failing location.

The trip-time test inside the batch uses locations that have not been
validated yet: later entries of the batch are validated only when the outer
loop reaches them. With an out-of-range longitude the call can therefore
panic (`UnvalidatedPartnerPanics`). The distance is total here, so the model
attributes that panic to `checked_sub(...).unwrap()` (src/lib.rs:163-164).
That is the site in a build without overflow checks. With overflow checks,
the unchecked `a.lon - b.lon` inside `haversine_distance` (src/lib.rs:196),
which runs first, overflows on the same inputs and panics there instead;
either way the call panics. An invalid location can also be reported as a
trip-time violation (`UnvalidatedPartnerReportedTooClose`). The model keeps
this behaviour, with panics as an explicit outcome. It also proves that on a
well-formed registry a panic needs an out-of-range longitude in the batch
(`PanicsOnlyOnInvalidLongitude`). An empty batch with a new identifier is
registered, because the loop over its locations does not run
(`EmptyBatchAccepted`).

Notes on the code:

- The checks are interleaved per location, as listed above.
- In the loop within the batch, a pair is skipped when the two locations are equal in value, not when they sit at the same index.
- The loop over registered currencies does not skip equal locations.
- `haversine_distance` has no clamp on its `asin`/`sqrt` argument, and it unwraps `sqrt` (src/lib.rs:211).
- Nothing in the code makes the distance symmetric, so the trip time is proved symmetric only under that hypothesis (`SolarTripTimeSymmetric`).
- The errors are the source's messages, one `DispatchError` constructor each.

## Model

| member | source | states |
|---|---|---|
| FixedPoint.TruncDiv | src/lib.rs:169 | Rust's integer `/`: the magnitude of the quotient times the divisor brackets the dividend, and a non-zero quotient is negative exactly when the operands' signs differ, i.e. rounding toward zero |
| FixedPoint.CheckedSub | src/lib.rs:161-164 | `I32F32::checked_sub` fails exactly when the raw difference leaves 64 bits; otherwise adding `b` back gives `a` |
| FixedPoint.CheckedDiv | src/lib.rs:165-166 | `I32F32::checked_div` fails for a zero divisor; for a non-zero divisor it succeeds exactly when the quotient fits in 64 bits, and the result is the raw quotient of `a * 2^32` by `b`, truncated toward zero |
| FixedPoint.CheckedMul | src/lib.rs:167-168 | `I32F32::checked_mul` returns the raw product `a * b / 2^32` rounded down, and fails exactly when the true product is outside the 64-bit range |
| FixedPoint.CheckedAbs | src/lib.rs:170 | `I32F32::abs` fails only on the most negative raw value; otherwise it returns `a` or `-a`, whichever is non-negative |
| FixedPoint.CheckedDivInt32 | src/lib.rs:169 | `i32::checked_div` fails exactly for a zero divisor or `i32::MIN / -1`; otherwise it divides rounding toward zero |
| FixedPoint.CheckedSubInt32 | src/lib.rs:171 | `-` on `i32` panics with overflow checks exactly when the difference leaves 32 bits; otherwise adding `b` back gives `a` |
| FixedPoint.WrapToInt32 | src/lib.rs:159 | `d as i32` on a `u32` is `d` or `d - 2^32`, and is non-negative exactly when `d < 2^31` |
| FixedPoint.LossyToInt32 | src/lib.rs:170 | the lossy `I32F32` to `i32` conversion gives the whole number `r` with `r * 2^32 <= a < (r + 1) * 2^32`, i.e. it rounds down |
| FixedPoint.DivByOneIsIdentity | src/lib.rs:165-166 | `checked_div(Degree::from_num(1))` never fails and returns its argument |
| FixedPoint.MulByWholeIsExact | src/lib.rs:167-168 | `checked_mul` by a whole number `n` is exact: it returns `a * n` and fails exactly when that leaves 64 bits |
| Geo.IsValidGeolocation | src/lib.rs:174-188 | a location is valid exactly when -90° <= lat <= 90° and -180° <= lon <= 180° on the raw bits, bounds inclusive |
| Geo.SolarTripTime | src/lib.rs:157-172 | whenever `solar_trip_time` returns, its value is the flight time minus the longitude offset, computed without machine limits |
| Geo.SolarTripTimeExact | src/lib.rs:157-172 | `solar_trip_time` panics exactly when the longitude difference, that difference times 240, or the final `i32` subtraction overflows; otherwise it equals the flight time minus the longitude offset, computed without machine limits |
| Geo.SolarTripTimeTotalOnValidLongitudes | src/lib.rs:157-172 | when both longitudes are within [-180°, 180°], none of the `unwrap`s fails and the result is the flight time minus the longitude offset, for every distance |
| Geo.LongitudeOffsetBounds | src/lib.rs:161-170 | on valid longitudes the offset floor(abs(dlon) * 240 s/°) is at most 86400 s and does not depend on argument order |
| Geo.FlightTimeOfDistance | src/lib.rs:159-169 | the flight time is the distance divided by 83 rounded down when the distance is below 2^31 m; a larger distance wraps in the `i32` cast to a flight time of at most zero |
| Geo.TripTimeAtMostFlightTime | src/lib.rs:157-172 | whenever `solar_trip_time` returns, its result is at most the flight time; for equal longitudes, whatever their value, it never panics and returns exactly the flight time |
| Geo.SolarTripTimeSymmetric | src/lib.rs:157-172 | with valid longitudes and a symmetric distance, `solar_trip_time(a, b) == solar_trip_time(b, a)` |
| Geo.MeetsMinimumOnValidLongitudes | src/lib.rs:110 | on valid longitudes the test `solar_trip_time >= MIN_SOLAR_TRIP_TIME_S` holds exactly when the trip time without machine limits is at least 1 s |
| Currencies.CheckIntraSet | src/lib.rs:108-111 | the loop within the batch passes exactly when every location not equal to `l1` can be reached with a trip time of at least 1 s without a panic; it fails only with the within-batch error or a panic |
| Currencies.CheckAgainstCurrency | src/lib.rs:128-134 | the loop over one registered currency passes exactly when every one of its locations, equal ones included, meets the minimum trip time; it fails only with the other-currency error or a panic |
| Currencies.CheckGlobal | src/lib.rs:127-135 | the loop over all registered currencies passes exactly when every location of every registered identifier meets the minimum trip time from `l1` |
| Currencies.CheckLocation | src/lib.rs:106-135 | the chain for one location reports the first failing test in the code's order: an invalid geolocation exactly for invalid locations; the within-batch error exactly when the location is valid and the loop within the batch reports it; the pole error exactly when the location is valid, the within-batch test passed and a pole is nearer than 1,000,000 m; the dateline error exactly when, in addition, both poles are far enough and the probe is nearer than 1,000,000 m; the other-currency error only after all those tests passed; when it passes, every one of those distance tests held; it never reports a duplicate identifier |
| Currencies.Register | src/lib.rs:138-140 | the commit appends exactly `cid` to the identifiers, sets `Locations[cid]` and `Bootstrappers[cid]`, and keeps every other entry of both maps |
| Currencies.CheckLocations | src/lib.rs:105-136 | the outer loop passes exactly when every location passes its chain of checks; a failure is the error of the first location that fails, after all earlier ones passed |
| Currencies.NewCurrency | src/lib.rs:99-143 | a failed call leaves the storage unchanged; a successful one had a new identifier and appends exactly that identifier |
| CurrencyProperties.CheckIntraSetIff | src/lib.rs:108-111 | on a valid batch and a valid `l1`, the loop within the batch passes exactly when every location not equal to `l1` is at least 1 s away by the trip time without machine limits |
| CurrencyProperties.CheckGlobalIff | src/lib.rs:126-135 | on a well-formed registry and a valid `l1`, the loop over registered currencies passes exactly when `l1` is at least 1 s from every location of every registered currency |
| CurrencyProperties.CheckLocationIff | src/lib.rs:106-135 | on a well-formed registry and a valid batch, the chain for one location passes exactly when it is valid, far enough from the batch, from both poles, from the dateline probe and from every registered location |
| CurrencyProperties.AcceptsExactlyAdmissible | src/lib.rs:101-142 | on a well-formed registry, `new_currency` accepts exactly when the identifier is new, every location is valid, distinct batch locations are at least 1 s apart, every location is at least 1,000,000 m from both poles and from its dateline probe, and every location is at least 1 s from every registered location |
| CurrencyProperties.RejectsKnownIdentifier | src/lib.rs:101-103 | the duplicate error is returned exactly when the computed identifier is already in `CurrencyIdentifiers` |
| CurrencyProperties.NewCurrencyCommit | src/lib.rs:138-140 | a successful call appends the identifier, stores the batch and the bootstrappers under it, and leaves every other entry of both maps as it was |
| CurrencyProperties.NewCurrencyPreservesWellFormed | src/lib.rs:103-139 | identifiers stay distinct, exactly the registered identifiers have locations and bootstrappers, and every stored location stays valid |
| CurrencyProperties.NewCurrencyPreservesSeparation | src/lib.rs:105-139 | every registered batch stays separated within itself and from every currency registered before it, under the distance the calls use |
| CurrencyProperties.GenesisInvariants | src/lib.rs:83-91 | the empty storage at genesis is well formed and separated |
| CurrencyProperties.ReplayPreservesInvariants | src/lib.rs:99-143 | every sequence of `new_currency` calls, successful or not, keeps the storage well formed and separated |
| CurrencyProperties.ReachableInvariants | src/lib.rs:99-143 | every storage reachable from genesis by `new_currency` calls is well formed and separated, so the theorems that assume these invariants apply to it |
| CurrencyProperties.ResubmissionRejected | src/lib.rs:101-103 | resubmitting a just-registered batch with the same bootstrappers returns the duplicate error and changes nothing |
| CurrencyProperties.AdmissibleIgnoresOrder | src/lib.rs:105-136 | the acceptance conditions depend only on which locations the batch holds, not on their order or repetition |
| CurrencyProperties.AcceptanceIgnoresOrder | src/lib.rs:105-136 | two orderings of the same locations, both with new identifiers, are either both accepted or both refused |
| CurrencyScenarios.CheckLocationNoPanic | src/lib.rs:106-135 | on a well-formed registry, when `l1` and every batch location have longitudes within [-180°, 180°], the chain for `l1` fails only with a rejection, never a panic |
| CurrencyScenarios.PanicsOnlyOnInvalidLongitude | src/lib.rs:105-135 | on a well-formed registry a call can panic only if some location of the batch has a longitude outside [-180°, 180°] |
| CurrencyScenarios.UnvalidatedPartnerPanics | src/lib.rs:105-110 | a valid location followed by one at the most negative longitude makes the call panic (attributed to `checked_sub`, the site in a build without overflow checks); in the other order the batch is refused as an invalid geolocation |
| CurrencyScenarios.UnvalidatedPartnerReportedTooClose | src/lib.rs:105-110 | the valid location one raw unit south of the North Pole followed by the invalid one just beyond it, less than 83 m apart, is refused for the within-batch trip time, not for the invalid location |
| CurrencyScenarios.EmptyBatchAccepted | src/lib.rs:105-142 | an empty batch with a new identifier is accepted and registered with an empty list of locations |
| CurrencyScenarios.RepeatedLocationAccepted | src/lib.rs:108-109 | a batch repeating one valid location that is far enough from the poles and the dateline is accepted into an empty registry |
| CurrencyScenarios.NearPoleRejected | src/lib.rs:112-118 | a single valid location nearer than 1,000,000 m to a pole is refused with the pole error, whatever its distance to the dateline probe |
| CurrencyScenarios.NearDatelineRejected | src/lib.rs:119-125 | a single valid location far from both poles but nearer than 1,000,000 m to its dateline probe is refused with the dateline error |
| CurrencyScenarios.RegisteredLocationRejected | src/lib.rs:127-133 | a location already stored for a registered currency is refused under a new identifier when its distance to itself is below 83 m, because equal locations are not skipped there |

## Left out

- `haversine_distance` (src/lib.rs:190-215) is the parameter `dist`, a total function to `u32`. Its body depends on a fixed-point transcendental library whose rounding is not visible. Its own panics are excluded: `sqrt(...).unwrap()` on a negative argument (src/lib.rs:211), and, in a build with overflow checks, the unchecked fixed-point `a.lon - b.lon` (src/lib.rs:196) and the other unchecked operations. No general property assumes `dist(a, a) = 0`; `SolarTripTimeSymmetric` is the only one that assumes symmetry, as a hypothesis. The scenarios `UnvalidatedPartnerReportedTooClose`, `RepeatedLocationAccepted`, `RegisteredLocationRejected`, `NearPoleRejected` and `NearDatelineRejected` add hypotheses on the distance between specific points only.
- The identifier, `blake2_256` over the SCALE encoding of `(loc, bootstrappers)`, is the parameter `idOf`. Hashing and encoding are foreign code.
- `ensure_signed` and the origin are not modelled, so the error for an unsigned origin is absent. The sender is used only for the event.
- `deposit_event`, `print_utf8` and `print_hex` are not modelled. They are I/O with no effect on the decision.
- The `CurrencyMaster` storage item and its genesis configuration are not modelled. `new_currency` does not read them.
- `host-calls/src/lib.rs` is not part of this model. It is a floating-point host interface that is not wired in.
- `src/tests.rs` is not part of this model. It is mock-runtime scaffolding written against an older signature of `new_currency`.
- Geo.SolarTripTime: the final `tflight - dt` subtraction on `i32` is modelled as a panic on overflow, which is what a build with overflow checks does; a build without them wraps. The overflow needs an out-of-range longitude and a distance of at least 2^31 m.
- FixedPoint.CheckedDiv: inexact quotients are truncated toward zero; the source only divides by 1.0, where the quotient is exact, so the rounding rule of the fixed-point library is not pinned down.
- FixedPoint.CheckedMul: inexact products are rounded down; the source only multiplies by the whole number 240.0, where the product is exact, so the rounding rule of the fixed-point library is not pinned down.
- Geo.SolarTripTimeSymmetric: symmetry is stated only for a symmetric distance function, because nothing in the code makes the distance symmetric.
- CurrencyScenarios.UnvalidatedPartnerPanics: the panic is attributed to `checked_sub(...).unwrap()` (src/lib.rs:163-164), the site in a build without overflow checks; in a build with them the unchecked `a.lon - b.lon` inside `haversine_distance` (src/lib.rs:196) overflows on the same inputs and panics first, so only "the call panics" is promised for that build.
