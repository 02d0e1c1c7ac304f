# Hospital registry of the corridor service

This project models the hospital registry of the green-corridor service: the
in-memory table of hospitals that an ambulance's destination is chosen from,
and the nearest-hospital query over it.

- `hospitals.dfy` (module `HospitalRecords`): the `HospitalRecord` shape, a
  coordinate that may be NaN, the query options and a ranked result
  (a record plus `distanceKm`).
- `registry.dfy` (module `Registry`): the module-level `Map` from
  `hospitalId` to record. Its state is the keys in insertion order (`ids`) and
  the key-to-record map (`recs`), kept consistent by `WellFormed`: no key twice,
  the same keys in both, every record stored under its own id. The pure
  functions `Register`, `UpdateBeds` and `SetActive` give the effect of each
  mutator; the class `HospitalRegistry` holds the two fields and its methods
  are proved to have exactly those effects. A re-registered id keeps its
  original position, as `Map.set` on an existing key does.
- `nearest.dfy` (module `NearestQuery`): `findNearestHospital` as the pipeline
  filter, annotate, stable sort by distance, truncate to `limit`. The
  great-circle distance is a parameter `dist` returning a real number, so every
  property holds for any distance function that never yields NaN (see
  "## Left out" for a registered location with a NaN coordinate).
- `beds_route.dfy` (module `BedsRoute`): the bed-count endpoint's validation in
  front of the registry's unvalidated update.

The model follows the code in these choices, where another design might behave differently:

- Ties in distance are kept in registry insertion order (the sort is stable
  over the `Map`'s values); there is no tie-break by higher `bedsAvailable`
  and then by `hospitalId`.
- The registry's own `updateHospitalBeds` stores a negative count rather than
  rejecting it with a validation error; only the HTTP endpoint rejects one. The
  model keeps the two apart.
- A specialty given as the empty string filters nothing, because the code tests
  the specialty for truthiness.
- `minBeds` and `limit` default to 1 only when absent; an explicit `0` is kept.

## Model

| member | source | states |
|---|---|---|
| NearestQuery.Nearest | infrastructure/backend/corridor-service/src/services/hospitalRegistry.ts:106-132 | the query itself (no NaN query coordinate, filter, annotate, sort, truncate); its properties are stated by NearestEligible, NearestSorted, NearestLength, NearestIsClosest, NearestComplete and NearestKeepsOrderOnTies |
| NearestQuery.Eligible | infrastructure/backend/corridor-service/src/services/hospitalRegistry.ts:120-125 | the filter predicate with the `minBeds` default of 1 and the truthy-specialty rule; its use is stated by CandidatesCount and NearestEligible |
| NearestQuery.SortByDistance | infrastructure/backend/corridor-service/src/services/hospitalRegistry.ts:130 | the stable sort by ascending distance; its properties are stated by SortPermutes, SortSorted and SortAtDistance |
| NearestQuery.Take | infrastructure/backend/corridor-service/src/services/hospitalRegistry.ts:131 | `slice(0, limit)` for a non-negative limit; its effect on the result is stated by NearestLength, NearestSorted and NearestKeepsOrderOnTies |
| Registry.Values | infrastructure/backend/corridor-service/src/services/hospitalRegistry.ts:139-141 | the registry's records in insertion order; its properties are stated by ValuesListEachOnce and RegisterKeepsOrder |
| Registry.Lookup | infrastructure/backend/corridor-service/src/services/hospitalRegistry.ts:135-137 | `Map.get`; its behaviour under the mutators is stated by the contracts of Register, UpdateBeds and SetActive |
| NearestQuery.CandidatesCount | infrastructure/backend/corridor-service/src/services/hospitalRegistry.ts:120-125 | each record occurs in the filtered list exactly as often as in the snapshot if it is active, emergency-capable, has at least `minBeds` beds (default 1) and lists a non-empty requested specialty, and never otherwise |
| NearestQuery.CandidatesAppend | infrastructure/backend/corridor-service/src/services/hospitalRegistry.ts:119-125 | filtering preserves snapshot order: the filter of a concatenation is the concatenation of the filters |
| NearestQuery.SortPermutes | infrastructure/backend/corridor-service/src/services/hospitalRegistry.ts:130 | the sort by distance is a permutation of its input |
| NearestQuery.SortSorted | infrastructure/backend/corridor-service/src/services/hospitalRegistry.ts:130 | the sort's output is in non-decreasing distance |
| NearestQuery.SortAtDistance | infrastructure/backend/corridor-service/src/services/hospitalRegistry.ts:130 | the sort is stable: the entries at any one distance appear in input order |
| NearestQuery.NearestEligible | infrastructure/backend/corridor-service/src/services/hospitalRegistry.ts:119-131 | every result is a registry record that passes the filter, annotated with `distanceKm` equal to the distance from the query point to that record's location |
| NearestQuery.NearestSorted | infrastructure/backend/corridor-service/src/services/hospitalRegistry.ts:130-131 | results come in non-decreasing `distanceKm` |
| NearestQuery.NearestLength | infrastructure/backend/corridor-service/src/services/hospitalRegistry.ts:114-131 | the result length is 0 for a NaN coordinate and otherwise `min(limit, number of eligible hospitals)`, `limit` defaulting to 1 |
| NearestQuery.NearestIsClosest | infrastructure/backend/corridor-service/src/services/hospitalRegistry.ts:126-131 | no eligible hospital left out of the result is strictly closer than any hospital in it |
| NearestQuery.NearestComplete | infrastructure/backend/corridor-service/src/services/hospitalRegistry.ts:119-131 | when fewer than `limit` results come back, every eligible hospital is among them |
| NearestQuery.NearestKeepsOrderOnTies | infrastructure/backend/corridor-service/src/services/hospitalRegistry.ts:119-131 | the results at any one distance are the first eligible hospitals at that distance, in registry insertion order |
| Registry.Register | infrastructure/backend/corridor-service/src/services/hospitalRegistry.ts:143-145 | registering keeps the table well formed, makes the lookup of the record's id return that record and leaves every other lookup unchanged |
| Registry.UpdateBeds | infrastructure/backend/corridor-service/src/services/hospitalRegistry.ts:147-150 | a bed update keeps the table well formed and the insertion order as it was, gives the named known id its old record with `bedsAvailable` replaced, and leaves every other lookup unchanged |
| Registry.SetActive | infrastructure/backend/corridor-service/src/services/hospitalRegistry.ts:152-155 | an activity update keeps the table well formed and the insertion order as it was, gives the named known id its old record with `active` replaced, and leaves every other lookup unchanged |
| Registry.ValuesListEachOnce | infrastructure/backend/corridor-service/src/services/hospitalRegistry.ts:139-141 | listing the registry yields as many entries as there are ids, every registered record, each under its own id, no id twice |
| Registry.RegisterKeepsOrder | infrastructure/backend/corridor-service/src/services/hospitalRegistry.ts:143-145 | re-registering a known id replaces its record in its original position; a new id is appended at the end |
| Registry.UpdateBedsChangesOnlyBeds | infrastructure/backend/corridor-service/src/services/hospitalRegistry.ts:147-150 | on a known id only that record's `bedsAvailable` changes, to the given value even if negative; every other field and record is unchanged; an unknown id is a no-op |
| Registry.SetActiveChangesOnlyActive | infrastructure/backend/corridor-service/src/services/hospitalRegistry.ts:152-155 | setting `active` is idempotent, a no-op on an unknown id, and changes only the `active` field of the named record |
| Registry.InactiveNeverNearest | infrastructure/backend/corridor-service/src/services/hospitalRegistry.ts:121 | a registered hospital that is inactive never appears in a query result |
| Registry.DeactivatedNeverNearest | infrastructure/backend/corridor-service/src/services/hospitalRegistry.ts:152-155 | after a hospital is set inactive, the query never returns a record with its id |
| Registry.HospitalRegistry.constructor | infrastructure/backend/corridor-service/src/services/hospitalRegistry.ts:32 | the registry starts empty and well formed |
| Registry.HospitalRegistry.RegisterHospital | infrastructure/backend/corridor-service/src/services/hospitalRegistry.ts:143-145 | the new state is `Register` of the old one; afterwards `getHospital(h.hospitalId)` yields `h` |
| Registry.HospitalRegistry.UpdateHospitalBeds | infrastructure/backend/corridor-service/src/services/hospitalRegistry.ts:147-150 | the new state is `UpdateBeds` of the old one |
| Registry.HospitalRegistry.SetHospitalActive | infrastructure/backend/corridor-service/src/services/hospitalRegistry.ts:152-155 | the new state is `SetActive` of the old one |
| Registry.HospitalRegistry.GetHospital | infrastructure/backend/corridor-service/src/services/hospitalRegistry.ts:135-137 | a record is returned exactly when the id is registered, and it is the record stored under that id |
| Registry.HospitalRegistry.GetAllHospitals | infrastructure/backend/corridor-service/src/services/hospitalRegistry.ts:139-141 | the records in insertion order, one per registered id, every registered record included |
| Registry.HospitalRegistry.FindNearestHospital | infrastructure/backend/corridor-service/src/services/hospitalRegistry.ts:106-132 | the result is the query over the current snapshot, and the registry is not modified |
| BedsRoute.PatchBeds | infrastructure/backend/corridor-service/src/routes/corridor.ts:110-122 | a non-number or negative count is rejected before the lookup and an unknown id is reported as not found, both without changing the registry; otherwise the count is stored as by `updateHospitalBeds`; bed counts that were all non-negative stay so |

## Left out

- The haversine distance (`hospitalRegistry.ts:21-29`): floating-point trigonometry. It is the parameter `dist`; no symmetry or zero-distance property is assumed.
- NearestQuery.NearestSorted: holds only when every distance is a real number. `registerHospital` does not check a record's location, so a registered hospital with a NaN coordinate gets a NaN distance; the sort then compares it as equal to everything, the result's order is left to the JavaScript engine, and a result holding it is not in non-decreasing order. The model's `dist` cannot return NaN.
- NearestQuery.NearestIsClosest: holds only under the same condition. With a registered NaN-located hospital between two others, the engine's sort may leave a farther hospital ahead of a nearer one, so the query can return the farther one; the model does not capture this.
- NearestQuery.SortSorted: likewise stated for real-valued distances only; the source's sort with a NaN distance is engine-defined.
- Floating point in general: coordinates are a real or NaN (infinities are not modelled), distances are reals, and `bedsAvailable` and `minBeds` are integers (fractional counts are not modelled).
- A negative `limit`: `slice(0, -k)` would drop the last k entries. `limit` is a natural number here; the HTTP layer's `parseInt(...) || 3` can pass a negative value, which this model excludes.
- Aliasing of records: the JavaScript `Map` stores the caller's object and `getHospital` returns it, so later field writes are visible through earlier references, and a caller could change a stored record's `hospitalId`. Records are values here.
- The demo seeding block (`hospitalRegistry.ts:35-103`): an environment-driven bootstrap with console output.
- The rest of `routes/corridor.ts`: Express routing, JSON shaping, request ids, number parsing and map-link strings. The nearest-hospitals endpoint's default `limit` of 3 is not modelled.
- The mission state machine, the signal store and the corridor controller: their implementation (`services/corridorEngine`) is not part of this model.
- Concurrency: the registry is modelled as one sequential object.
