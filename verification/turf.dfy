/** The geometry library the browser application calls. Its algorithms are
    not part of this model: each operation is a field of `Turf`, passed to the
    functions that use it, so every property proved holds for any library
    behaviour. An operation that can throw returns an `Option` (`None` =
    threw), whether the application catches the exception or lets it
    propagate; `convex` and `distance` are total.
    Where the library's own code throws whatever its numeric internals do,
    the model says so itself (see `Sunlight.PointInPolygon`). */
module TurfLib {
  import opened Wrappers
  import opened JsonValue
  import opened GeoJson

  datatype BBox = BBox(west: real, south: real, east: real, north: real)

  datatype Turf = Turf(
    /** `turf.destination(pt, distance, bearing, {units: "meters"})`; it
        throws when the destination's coordinates are not numbers, as on a
        NaN distance */
    destination: (Position, Num, real) -> Option<Position>,
    /** `turf.convex(points)`: the hull's rings, or `None` for `null` */
    convex: seq<Position> -> Option<seq<Ring>>,
    /** `turf.cleanCoords(feature)` applied to a geometry; it throws when a
        cleaned ring is too short to be a polygon ring */
    cleanCoords: Geometry -> Option<Geometry>,
    /** `turf.booleanPointInPolygon(pt, feature)` on a geometry whose
        coordinates it can read as rings; it throws, for instance, on a ring
        whose first and last positions differ (depending on the release) */
    booleanPointInPolygon: (Position, Geometry) -> Option<bool>,
    /** `turf.bbox(feature)` */
    bbox: Geometry -> Option<BBox>,
    /** `turf.pointGrid(bbox, cellSize, {units: "meters"})` */
    pointGrid: (BBox, real) -> Option<seq<Position>>,
    /** `turf.pointsWithinPolygon(points, feature)` */
    pointsWithinPolygon: (seq<Position>, Geometry) -> Option<seq<Position>>,
    /** `turf.center(feature)` */
    center: Geometry -> Option<Position>,
    /** `turf.centroid(feature)` */
    centroid: Feature -> Option<Position>,
    /** `turf.distance(a, b, {units: "meters"})` */
    distance: (Position, Position) -> real
  )
}
