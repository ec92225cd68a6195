/** GeoJSON objects as laid out in section 3 of RFC 7946: positions, the six
    coordinate-carrying geometry types plus GeometryCollection, features, and
    the three kinds of top-level object, each with an optional `crs` member. */
module GeoJson {
  import opened Wrappers
  import opened JsonValue

  /** A position: longitude/easting, latitude/northing, then any further
      components such as an altitude. */
  datatype Position = Position(x: real, y: real, extra: seq<real>)

  type Ring = seq<Position>

  datatype Geometry =
    | Point(position: Position)
    | MultiPoint(points: seq<Position>)
    | LineString(line: seq<Position>)
    | MultiLineString(lines: seq<seq<Position>>)
    | Polygon(rings: seq<Ring>)
    | MultiPolygon(polygons: seq<seq<Ring>>)
    | GeometryCollection(geometries: seq<Geometry>)

  /** A feature; its geometry may be `null`. */
  datatype Feature = Feature(geometry: Option<Geometry>, properties: Properties)

  datatype Body =
    | FeatureCollection(features: seq<Feature>)
    | SingleFeature(feature: Feature)
    | BareGeometry(geometry: Geometry)

  datatype Document = Document(body: Body, crs: Option<Json>)

  predicate IsPolygonal(g: Geometry) {
    g.Polygon? || g.MultiPolygon?
  }

  /** A closed linear ring (section 3.1.6 of RFC 7946): at least four
      positions, the last equal to the first. */
  predicate IsLinearRing(r: Ring) {
    |r| >= 4 && r[0] == r[|r| - 1]
  }

  /** An empty feature collection without a `crs` member. */
  const EmptyCollection: Document := Document(FeatureCollection([]), None)
}
