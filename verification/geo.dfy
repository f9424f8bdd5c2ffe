/** Positions, recorded fixes, and the distance primitives the trace pipeline
    consumes. The `geoutils` crate computes the distances; here they are
    parameters of the operations that use them. */
module Geo {
  import opened Common
  import opened Calendar

  /** Latitude and longitude in signed decimal degrees. */
  datatype Position = Position(lat: real, long: real)

  /** One decoded B record: timestamp, position, barometric and GNSS altitude. */
  datatype Fix = Fix(time: DateTime, lat: real, long: real, alt: nat, altGps: nat)
  {
    function Pos(): Position {
      Position(lat, long)
    }
  }

  /** `Location::distance_to` (Vincenty): metres, or nothing when the iteration
      does not converge. */
  type Geodesic = (Position, Position) -> Option<real>

  /** `Location::haversine_distance_to`: metres, always defined. */
  type Haversine = (Position, Position) -> real

  /** A distance function never reports a negative distance. */
  ghost predicate NonNegative(geo: Geodesic) {
    forall a, b :: geo(a, b).Some? ==> geo(a, b).value >= 0.0
  }

  ghost predicate Symmetric(geo: Geodesic) {
    forall a, b :: geo(a, b) == geo(b, a)
  }

  /** The geodesic distance resolves between every pair of consecutive fixes. */
  ghost predicate ResolvesAlong(geo: Geodesic, t: seq<Fix>) {
    forall k :: 0 <= k < |t| - 1 ==> geo(t[k].Pos(), t[k + 1].Pos()).Some?
  }

  /** The geodesic distance resolves from every fix back to the one before it. */
  predicate ResolvesBack(geo: Geodesic, t: seq<Fix>) {
    forall k :: 1 <= k < |t| ==> geo(t[k].Pos(), t[k - 1].Pos()).Some?
  }

  /** `distance_to(..).unwrap_or(Distance::from_meters(0))`. */
  function DistanceOrZero(geo: Geodesic, a: Position, b: Position): real {
    match geo(a, b)
    case Some(d) => d
    case None => 0.0
  }
}
