/**
 * The records of the hospital registry: a hospital, a coordinate, a query's
 * options and a query result (a record annotated with its distance).
 */
module HospitalRecords {
  import opened Wrappers

  /** A JavaScript number used as a coordinate: a finite value or NaN. */
  datatype Coord = Num(value: real) | NaN

  datatype GeoPoint = GeoPoint(lat: Coord, lng: Coord)

  /** `HospitalRecord`: one entry of the registry, keyed by `hospitalId`. */
  datatype Hospital = Hospital(
    hospitalId: string,
    name: string,
    location: GeoPoint,
    phone: string,
    specialties: seq<string>,
    bedsAvailable: int,
    emergencyCapable: bool,
    active: bool)

  /** `HospitalRecord & { distanceKm }`: a query result. */
  datatype Ranked = Ranked(record: Hospital, distanceKm: real)

  /** The optional second argument of the nearest-hospital query; `None` is an absent field. */
  datatype QueryOptions = QueryOptions(specialty: Option<string>, minBeds: Option<int>, limit: Option<nat>)

  /** The query called without options. */
  const NoOptions := QueryOptions(None, None, None)

  /** The great-circle distance in kilometres, left uninterpreted. */
  type DistanceFn = (GeoPoint, GeoPoint) -> real
}
