/** `reprojectGeoJSON` (reproject.js): converts a GeoJSON object from
    Lambert 93 (EPSG:2154) to WGS84 by mapping the point projection over every
    position of every feature's geometry, at whatever depth the geometry type
    nests its positions, and relabels a truthy `crs` as CRS84. The projection
    itself (proj4) is a parameter. The source works on a deep copy, so the
    input is never changed; here every operation is a pure function. */
module Reproject {
  import opened Wrappers
  import opened JsonValue
  import opened GeoJson

  /** The point projection: easting and northing to longitude and latitude. */
  type Projection = (real, real) -> (real, real)

  /** `projLambert93ToWGS84(p[0], p[1])`: the image keeps only the two
      projected components. */
  function Project(p: Position, proj: Projection): (r: Position)
    ensures (r.x, r.y) == proj(p.x, p.y) && r.extra == []
  {
    var (x, y) := proj(p.x, p.y);
    Position(x, y, [])
  }

  /** `coords.map(point => ...)` */
  function MapPoints(ps: seq<Position>, proj: Projection): (r: seq<Position>)
    ensures |r| == |ps|
    ensures forall i :: 0 <= i < |ps| ==> r[i] == Project(ps[i], proj)
    decreases |ps|
  {
    if |ps| == 0 then [] else [Project(ps[0], proj)] + MapPoints(ps[1..], proj)
  }

  /** `coords.map(ring => ring.map(...))` */
  function MapRings(rs: seq<seq<Position>>, proj: Projection): (r: seq<seq<Position>>)
    ensures |r| == |rs|
    ensures forall i :: 0 <= i < |rs| ==> r[i] == MapPoints(rs[i], proj)
    decreases |rs|
  {
    if |rs| == 0 then [] else [MapPoints(rs[0], proj)] + MapRings(rs[1..], proj)
  }

  /** `coords.map(polygon => polygon.map(ring => ring.map(...)))` */
  function MapPolygons(ps: seq<seq<seq<Position>>>, proj: Projection): (r: seq<seq<seq<Position>>>)
    ensures |r| == |ps|
    ensures forall i :: 0 <= i < |ps| ==> r[i] == MapRings(ps[i], proj)
    decreases |ps|
  {
    if |ps| == 0 then [] else [MapRings(ps[0], proj)] + MapPolygons(ps[1..], proj)
  }

  /** `b` has the geometry type of `a`, the same number of positions, rings
      and polygons at every level; a GeometryCollection is `a` itself. */
  ghost predicate SameShape(a: Geometry, b: Geometry) {
    match a
    case Point(_) => b.Point?
    case MultiPoint(ps) => b.MultiPoint? && |b.points| == |ps|
    case LineString(ps) => b.LineString? && |b.line| == |ps|
    case MultiLineString(ls) =>
      && b.MultiLineString? && |b.lines| == |ls|
      && forall i :: 0 <= i < |ls| ==> |b.lines[i]| == |ls[i]|
    case Polygon(rs) =>
      && b.Polygon? && |b.rings| == |rs|
      && forall i :: 0 <= i < |rs| ==> |b.rings[i]| == |rs[i]|
    case MultiPolygon(ps) =>
      && b.MultiPolygon? && |b.polygons| == |ps|
      && (forall i :: 0 <= i < |ps| ==> |b.polygons[i]| == |ps[i]|)
      && (forall i, j :: 0 <= i < |ps| && 0 <= j < |ps[i]| ==> |b.polygons[i][j]| == |ps[i][j]|)
    case GeometryCollection(_) => b == a
  }

  /** Every position of `b` is the projection of the position of `a` at the
      same place. Meaningful once `SameShape(a, b)` holds. */
  ghost predicate ImageOf(a: Geometry, b: Geometry, proj: Projection) {
    match a
    case Point(p) => b.Point? && b.position == Project(p, proj)
    case MultiPoint(ps) =>
      b.MultiPoint? && forall i :: 0 <= i < |ps| && i < |b.points| ==> b.points[i] == Project(ps[i], proj)
    case LineString(ps) =>
      b.LineString? && forall i :: 0 <= i < |ps| && i < |b.line| ==> b.line[i] == Project(ps[i], proj)
    case MultiLineString(ls) =>
      b.MultiLineString? && forall i, j ::
        0 <= i < |ls| && i < |b.lines| && 0 <= j < |ls[i]| && j < |b.lines[i]| ==>
          b.lines[i][j] == Project(ls[i][j], proj)
    case Polygon(rs) =>
      b.Polygon? && forall i, j ::
        0 <= i < |rs| && i < |b.rings| && 0 <= j < |rs[i]| && j < |b.rings[i]| ==>
          b.rings[i][j] == Project(rs[i][j], proj)
    case MultiPolygon(ps) =>
      b.MultiPolygon? && forall i, j, k ::
        0 <= i < |ps| && i < |b.polygons| && 0 <= j < |ps[i]| && j < |b.polygons[i]|
        && 0 <= k < |ps[i][j]| && k < |b.polygons[i][j]| ==>
          b.polygons[i][j][k] == Project(ps[i][j][k], proj)
    case GeometryCollection(_) => b == a
  }

  /** `transformCoords(coords, type)`: the positions are mapped at the depth
      the type nests them; a GeometryCollection (whose `coordinates` is
      undefined) is returned as it is. */
  function TransformCoords(g: Geometry, proj: Projection): (r: Geometry)
    ensures SameShape(g, r)
    ensures ImageOf(g, r, proj)
  {
    match g
    case Point(p) => Point(Project(p, proj))
    case MultiPoint(ps) => MultiPoint(MapPoints(ps, proj))
    case LineString(ps) => LineString(MapPoints(ps, proj))
    case MultiLineString(ls) => MultiLineString(MapRings(ls, proj))
    case Polygon(rs) => Polygon(MapRings(rs, proj))
    case MultiPolygon(ps) => MultiPolygon(MapPolygons(ps, proj))
    case GeometryCollection(_) => g
  }

  /** The shape and the position-wise image determine the result: any `b`
      of the same shape whose positions are the projections is exactly the
      transformed geometry. */
  lemma TransformUnique(a: Geometry, b: Geometry, proj: Projection)
    requires SameShape(a, b) && ImageOf(a, b, proj)
    ensures b == TransformCoords(a, proj)
  {
    var r := TransformCoords(a, proj);
    match a
    case Point(_) =>
    case MultiPoint(ps) =>
      assert b.points == r.points;
    case LineString(ps) =>
      assert b.line == r.line;
    case MultiLineString(ls) =>
      forall i | 0 <= i < |ls|
        ensures b.lines[i] == r.lines[i]
      {
        assert |b.lines[i]| == |r.lines[i]|;
      }
      assert b.lines == r.lines;
    case Polygon(rs) =>
      forall i | 0 <= i < |rs|
        ensures b.rings[i] == r.rings[i]
      {
        assert |b.rings[i]| == |r.rings[i]|;
      }
      assert b.rings == r.rings;
    case MultiPolygon(ps) =>
      forall i | 0 <= i < |ps|
        ensures b.polygons[i] == r.polygons[i]
      {
        forall j | 0 <= j < |ps[i]|
          ensures b.polygons[i][j] == r.polygons[i][j]
        {
          assert |b.polygons[i][j]| == |r.polygons[i][j]|;
        }
        assert |b.polygons[i]| == |r.polygons[i]|;
      }
      assert b.polygons == r.polygons;
    case GeometryCollection(_) =>
  }

  /** Projecting with `p`, then with `q`. */
  function Compose(p: Projection, q: Projection): (c: Projection)
    ensures forall x: real, y: real :: c(x, y) == q(p(x, y).0, p(x, y).1)
  {
    (x: real, y: real) => q(p(x, y).0, p(x, y).1)
  }

  /** Transforming twice is transforming once with the composed projection. */
  lemma TransformTwice(g: Geometry, p: Projection, q: Projection)
    ensures TransformCoords(TransformCoords(g, p), q) == TransformCoords(g, Compose(p, q))
  {
    var c := Compose(p, q);
    var once := TransformCoords(g, p);
    var twice := TransformCoords(once, q);
    match g
    case Point(_) =>
    case MultiPoint(ps) =>
      assert twice.points == MapPoints(ps, c);
    case LineString(ps) =>
      assert twice.line == MapPoints(ps, c);
    case MultiLineString(ls) =>
      RingsTwice(ls, p, q);
    case Polygon(rs) =>
      RingsTwice(rs, p, q);
    case MultiPolygon(ps) =>
      forall i | 0 <= i < |ps|
        ensures twice.polygons[i] == MapPolygons(ps, c)[i]
      {
        RingsTwice(ps[i], p, q);
      }
      assert twice.polygons == MapPolygons(ps, c);
    case GeometryCollection(_) =>
  }

  lemma RingsTwice(rs: seq<seq<Position>>, p: Projection, q: Projection)
    ensures MapRings(MapRings(rs, p), q) == MapRings(rs, Compose(p, q))
  {
    forall i | 0 <= i < |rs|
      ensures MapRings(MapRings(rs, p), q)[i] == MapRings(rs, Compose(p, q))[i]
    {
      assert MapPoints(MapPoints(rs[i], p), q) == MapPoints(rs[i], Compose(p, q));
    }
  }

  /** Every position has exactly two components. */
  ghost predicate Planar(g: Geometry) {
    match g
    case Point(p) => p.extra == []
    case MultiPoint(ps) => forall i :: 0 <= i < |ps| ==> ps[i].extra == []
    case LineString(ps) => forall i :: 0 <= i < |ps| ==> ps[i].extra == []
    case MultiLineString(ls) => forall i, j :: 0 <= i < |ls| && 0 <= j < |ls[i]| ==> ls[i][j].extra == []
    case Polygon(rs) => forall i, j :: 0 <= i < |rs| && 0 <= j < |rs[i]| ==> rs[i][j].extra == []
    case MultiPolygon(ps) =>
      forall i, j, k :: 0 <= i < |ps| && 0 <= j < |ps[i]| && 0 <= k < |ps[i][j]| ==> ps[i][j][k].extra == []
    case GeometryCollection(_) => true
  }

  /** `q` undoes `p`. */
  ghost predicate Inverse(p: Projection, q: Projection) {
    forall x: real, y: real :: q(p(x, y).0, p(x, y).1) == (x, y)
  }

  /** Reprojecting with a projection and then with its inverse gives back a
      geometry whose positions have two components. */
  lemma TransformRoundTrip(g: Geometry, p: Projection, q: Projection)
    requires Inverse(p, q) && Planar(g)
    ensures TransformCoords(TransformCoords(g, p), q) == g
  {
    TransformTwice(g, p, q);
    assert SameShape(g, g);
    assert ImageOf(g, g, Compose(p, q));
    TransformUnique(g, g, Compose(p, q));
  }

  // ---------------------------------------------------------------------------
  // The top-level object

  /** `feature.geometry.coordinates` on a `null` geometry throws. */
  datatype ReprojectError = NullGeometry

  /** `{type: "name", properties: {name: "urn:ogc:def:crs:OGC:1.3:CRS84"}}` */
  const Crs84: Json := JObj(map[
    "type" := JStr("name"),
    "properties" := JObj(map["name" := JStr("urn:ogc:def:crs:OGC:1.3:CRS84")])])

  function ReprojectFeature(f: Feature, proj: Projection): (r: Result<Feature, ReprojectError>)
    ensures r.Err? <==> f.geometry.None?
    ensures r.Ok? ==> r.value.properties == f.properties
    ensures r.Ok? ==> r.value.geometry.Some? && SameShape(f.geometry.value, r.value.geometry.value)
    ensures r.Ok? ==> ImageOf(f.geometry.value, r.value.geometry.value, proj)
  {
    match f.geometry
    case None => Err(NullGeometry)
    case Some(g) => Ok(Feature(Some(TransformCoords(g, proj)), f.properties))
  }

  /** The `forEach` over the features; the first `null` geometry throws. */
  function ReprojectFeatures(fs: seq<Feature>, proj: Projection): (r: Result<seq<Feature>, ReprojectError>)
    ensures r.Ok? <==> forall i :: 0 <= i < |fs| ==> fs[i].geometry.Some?
    ensures r.Ok? ==> |r.value| == |fs|
    ensures r.Ok? ==> forall i :: 0 <= i < |fs| ==> r.value[i] == ReprojectFeature(fs[i], proj).value
    decreases |fs|
  {
    if |fs| == 0 then Ok([])
    else
      var f :- ReprojectFeature(fs[0], proj);
      var rest :- ReprojectFeatures(fs[1..], proj);
      assert forall i :: 1 <= i < |fs| ==> fs[i] == fs[1..][i - 1];
      Ok([f] + rest)
  }

  /** `reprojectGeoJSON`: the features of a collection, or the single
      feature, are reprojected; any other object is left as it is. A truthy
      `crs` becomes CRS84; a falsy or absent one stays. */
  function ReprojectGeoJson(doc: Document, proj: Projection): (r: Result<Document, ReprojectError>)
    ensures doc.body.FeatureCollection? ==>
      (r.Ok? <==> forall i :: 0 <= i < |doc.body.features| ==> doc.body.features[i].geometry.Some?)
    ensures doc.body.SingleFeature? ==> (r.Ok? <==> doc.body.feature.geometry.Some?)
    ensures doc.body.SingleFeature? && r.Ok? ==>
      var f := doc.body.feature;
      && r.value.body.SingleFeature?
      && r.value.body.feature.properties == f.properties
      && r.value.body.feature.geometry.Some?
      && SameShape(f.geometry.value, r.value.body.feature.geometry.value)
      && ImageOf(f.geometry.value, r.value.body.feature.geometry.value, proj)
    ensures doc.body.BareGeometry? ==> r.Ok? && r.value.body == doc.body
    ensures r.Ok? && JsTruthy(doc.crs) ==> r.value.crs == Some(Crs84)
    ensures r.Ok? && !JsTruthy(doc.crs) ==> r.value.crs == doc.crs
  {
    var body :- match doc.body
      case FeatureCollection(fs) =>
        var out :- ReprojectFeatures(fs, proj);
        Ok(FeatureCollection(out))
      case SingleFeature(f) =>
        var out :- ReprojectFeature(f, proj);
        Ok(SingleFeature(out))
      case BareGeometry(_) => Ok(doc.body);
    Ok(Document(body, if JsTruthy(doc.crs) then Some(Crs84) else doc.crs))
  }

  /** A reprojected collection keeps its feature count, every feature's
      properties and every geometry's type and shape, and maps every
      position. */
  lemma CollectionPreserved(doc: Document, proj: Projection)
    requires doc.body.FeatureCollection? && ReprojectGeoJson(doc, proj).Ok?
    ensures var out := ReprojectGeoJson(doc, proj).value.body;
      var fs := doc.body.features;
      && out.FeatureCollection?
      && |out.features| == |fs|
      && (forall i :: 0 <= i < |fs| ==> out.features[i].properties == fs[i].properties)
      && (forall i :: 0 <= i < |fs| ==>
            && out.features[i].geometry.Some? && fs[i].geometry.Some?
            && SameShape(fs[i].geometry.value, out.features[i].geometry.value)
            && ImageOf(fs[i].geometry.value, out.features[i].geometry.value, proj))
  {
    var fs := doc.body.features;
    var out := ReprojectFeatures(fs, proj).value;
    assert ReprojectGeoJson(doc, proj).value.body == FeatureCollection(out);
    forall i | 0 <= i < |fs|
      ensures out[i].geometry.Some? && fs[i].geometry.Some?
      ensures out[i].properties == fs[i].properties
      ensures SameShape(fs[i].geometry.value, out[i].geometry.value)
      ensures ImageOf(fs[i].geometry.value, out[i].geometry.value, proj)
    {
      assert out[i] == ReprojectFeature(fs[i], proj).value;
    }
  }

  /** Reprojecting twice is reprojecting once with the composed projection:
      the second pass finds a CRS84 `crs` exactly when the first found a
      truthy one. */
  lemma ReprojectTwice(doc: Document, p: Projection, q: Projection)
    requires ReprojectGeoJson(doc, p).Ok?
    ensures ReprojectGeoJson(ReprojectGeoJson(doc, p).value, q) == ReprojectGeoJson(doc, Compose(p, q))
  {
    var once := ReprojectGeoJson(doc, p).value;
    assert JsTruthy(Some(Crs84));
    match doc.body
    case FeatureCollection(fs) =>
      var a := ReprojectFeatures(fs, p).value;
      assert once.body == FeatureCollection(a);
      FeaturesTwice(fs, p, q);
    case SingleFeature(f) =>
      TransformTwice(f.geometry.value, p, q);
    case BareGeometry(_) =>
  }

  lemma FeaturesTwice(fs: seq<Feature>, p: Projection, q: Projection)
    requires ReprojectFeatures(fs, p).Ok?
    ensures ReprojectFeatures(ReprojectFeatures(fs, p).value, q) == ReprojectFeatures(fs, Compose(p, q))
  {
    var a := ReprojectFeatures(fs, p).value;
    var c := Compose(p, q);
    assert forall i :: 0 <= i < |a| ==> a[i].geometry.Some?;
    var b := ReprojectFeatures(a, q).value;
    forall i | 0 <= i < |fs|
      ensures b[i] == ReprojectFeatures(fs, c).value[i]
    {
      assert a[i] == ReprojectFeature(fs[i], p).value;
      TransformTwice(fs[i].geometry.value, p, q);
    }
  }

  /** Reprojecting with a projection and then with its inverse gives back
      the collection or feature, when every position has two components. */
  lemma ReprojectRoundTrip(doc: Document, p: Projection, q: Projection)
    requires Inverse(p, q)
    requires ReprojectGeoJson(doc, p).Ok?
    requires doc.body.FeatureCollection? ==>
      forall i :: 0 <= i < |doc.body.features| ==> Planar(doc.body.features[i].geometry.value)
    requires doc.body.SingleFeature? ==> Planar(doc.body.feature.geometry.value)
    ensures ReprojectGeoJson(ReprojectGeoJson(doc, p).value, q).Ok?
    ensures ReprojectGeoJson(ReprojectGeoJson(doc, p).value, q).value.body == doc.body
  {
    ReprojectTwice(doc, p, q);
    match doc.body
    case FeatureCollection(fs) =>
      var c := Compose(p, q);
      var b := ReprojectFeatures(fs, c).value;
      forall i | 0 <= i < |fs|
        ensures b[i] == fs[i]
      {
        TransformTwice(fs[i].geometry.value, p, q);
        TransformRoundTrip(fs[i].geometry.value, p, q);
      }
      assert b == fs;
    case SingleFeature(f) =>
      TransformTwice(f.geometry.value, p, q);
      TransformRoundTrip(f.geometry.value, p, q);
    case BareGeometry(_) =>
  }
}
