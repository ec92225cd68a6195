/** Building footprints and their projected shadows (main.js). Each building's
    exterior ring is translated along the sun's azimuth by the shadow length;
    the shadow is the convex hull of the footprint and the translated copy or,
    when the library returns no hull, the ring that walks the footprint, comes
    back along the translated copy and closes on the first vertex. */
module Shadows {
  import opened Wrappers
  import opened JsonValue
  import opened GeoJson
  import opened TurfLib
  import opened Seqs

  /** Sun position from the ephemeris library, angles in radians. */
  datatype SunPosition = SunPosition(azimuth: real, altitude: real)

  /** The floating-point trigonometry of the projection: radians to degrees,
      and `height / Math.tan(altitude)`. */
  datatype SunMath = SunMath(toDegrees: real -> real, shadowLength: (Num, real) -> Num)

  /** A building footprint read from the map tiles. */
  datatype Building = Building(geometry: Geometry, height: Num, minHeight: real)

  datatype ShadowError =
    | NoExteriorRing      // the geometry has no ring where the code reads one
    | DestinationFailed   // `turf.destination` threw on a vertex
    | InvalidRing         // the fallback ring is rejected by the polygon constructor
    | CleanFailed         // `turf.cleanCoords` rejected the shadow polygon

  // ---------------------------------------------------------------------------
  // Building properties

  /** JavaScript `Number(v)`; strings go through the runtime's string-to-number
      conversion `parse`. */
  function ToNumber(v: Option<Json>, parse: string -> Num): Num {
    match v
    case None => NaN
    case Some(JNull) => Finite(0.0)
    case Some(JBool(b)) => Finite(if b then 1.0 else 0.0)
    case Some(JNum(n)) => Finite(n)
    case Some(JStr(s)) => parse(s)
    case Some(_) => NaN
  }

  /** `{height: Number(height), min_height: Number(min_height) || 0}`. */
  function NormaliseBuilding(geometry: Geometry, props: Properties, parse: string -> Num): (b: Building)
    ensures b.geometry == geometry
    ensures b.height == ToNumber(Lookup(props, "height"), parse)
    ensures ToNumber(Lookup(props, "min_height"), parse).Finite? ==> b.minHeight == ToNumber(Lookup(props, "min_height"), parse).value
    ensures ToNumber(Lookup(props, "min_height"), parse).NaN? ==> b.minHeight == 0.0
    ensures "min_height" !in props ==> b.minHeight == 0.0
  {
    var minHeight := match ToNumber(Lookup(props, "min_height"), parse)
      case Finite(n) => n
      case NaN => 0.0;
    Building(geometry, ToNumber(Lookup(props, "height"), parse), minHeight)
  }

  // ---------------------------------------------------------------------------
  // Shadow projection

  /** `coordinates[0]` for a Polygon and `coordinates[0][0]` for anything else;
      only a MultiPolygon has a ring there. */
  function Exterior(g: Geometry): (r: Option<Ring>)
    ensures r.Some? <==> (g.Polygon? && |g.rings| > 0) || (g.MultiPolygon? && |g.polygons| > 0 && |g.polygons[0]| > 0)
    ensures r.Some? && g.Polygon? ==> r.value == g.rings[0]
    ensures r.Some? && g.MultiPolygon? ==> r.value == g.polygons[0][0]
  {
    match g
    case Polygon(rings) => if |rings| > 0 then Some(rings[0]) else None
    case MultiPolygon(polys) => if |polys| > 0 && |polys[0]| > 0 then Some(polys[0][0]) else None
    case _ => None
  }

  /** `exterior.map(pt => turf.destination(pt, length, bearing))`; the first
      vertex whose destination throws aborts the map. */
  function Project(exterior: Ring, length: Num, bearing: real, turf: Turf): (proj: Option<Ring>)
    ensures proj.Some? <==> forall i :: 0 <= i < |exterior| ==> turf.destination(exterior[i], length, bearing).Some?
    ensures proj.Some? ==> |proj.value| == |exterior|
    ensures proj.Some? ==> forall i :: 0 <= i < |exterior| ==> proj.value[i] == turf.destination(exterior[i], length, bearing).value
    decreases |exterior|
  {
    if |exterior| == 0 then Some([])
    else
      assert forall i :: 1 <= i < |exterior| ==> exterior[i] == exterior[1..][i - 1];
      match (turf.destination(exterior[0], length, bearing), Project(exterior[1..], length, bearing, turf))
      case (Some(first), Some(rest)) => Some([first] + rest)
      case _ => None
  }

  /** `[...exterior, ...proj.slice().reverse(), exterior[0]]`. */
  function FallbackRing(exterior: Ring, proj: Ring): (ring: Ring)
    requires |exterior| > 0
  {
    exterior + Reverse(proj) + [exterior[0]]
  }

  /** The fallback ring walks the footprint, returns along the projection and
      closes on the first vertex; it is a valid linear ring exactly when the
      footprint has at least two vertices. */
  lemma FallbackRingShape(exterior: Ring, proj: Ring)
    requires |exterior| > 0 && |proj| == |exterior|
    ensures var ring := FallbackRing(exterior, proj);
      && |ring| == 2 * |exterior| + 1
      && ring[..|exterior|] == exterior
      && ring[|exterior|..|ring| - 1] == Reverse(proj)
      && ring[0] == ring[|ring| - 1] == exterior[0]
      && (IsLinearRing(ring) <==> |exterior| >= 2)
  {
    var ring := FallbackRing(exterior, proj);
    assert ring[..|exterior|] == exterior;
    assert ring[|exterior|..|ring| - 1] == Reverse(proj);
  }

  /** The projected copy of a building's exterior ring at its shadow length
      along the sun's azimuth, when the building has an exterior ring. */
  function Projection(b: Building, sun: SunPosition, math: SunMath, turf: Turf): Option<Ring>
    requires Exterior(b.geometry).Some?
  {
    Project(Exterior(b.geometry).value, math.shadowLength(b.height, sun.altitude), math.toDegrees(sun.azimuth), turf)
  }

  /** The rings of one building's shadow before cleaning: the hull if the
      library returns one, otherwise the fallback ring, which the polygon
      constructor accepts only if it is a linear ring (a missing first vertex
      gives a one-position ring, rejected the same way). A missing exterior
      ring, then a throwing `destination`, fail first. */
  function ShadowOutline(b: Building, sun: SunPosition, math: SunMath, turf: Turf): (r: Result<seq<Ring>, ShadowError>)
    ensures r.Ok? <==>
      && Exterior(b.geometry).Some?
      && Projection(b, sun, math, turf).Some?
      && (|| turf.convex(Exterior(b.geometry).value + Projection(b, sun, math, turf).value).Some?
          || |Exterior(b.geometry).value| >= 2)
    ensures Exterior(b.geometry).None? ==> r == Err(NoExteriorRing)
    ensures Exterior(b.geometry).Some? && Projection(b, sun, math, turf).None? ==> r == Err(DestinationFailed)
    ensures r.Ok? ==>
      var exterior := Exterior(b.geometry).value;
      var proj := Projection(b, sun, math, turf).value;
      match turf.convex(exterior + proj)
      case Some(hull) => r.value == hull
      case None =>
        && |r.value| == 1
        && |r.value[0]| == 2 * |exterior| + 1
        && r.value[0][..|exterior|] == exterior
        && r.value[0][|exterior|..|r.value[0]| - 1] == Reverse(proj)
        && IsLinearRing(r.value[0])
        && r.value[0][|r.value[0]| - 1] == exterior[0]
  {
    var exterior :- Exterior(b.geometry).ToResult(NoExteriorRing);
    var proj :- Projection(b, sun, math, turf).ToResult(DestinationFailed);
    assert |proj| == |exterior|;
    match turf.convex(exterior + proj)
    case Some(hull) => Ok(hull)
    case None =>
      if |exterior| == 0 then Err(InvalidRing)
      else
        FallbackRingShape(exterior, proj);
        var ring := FallbackRing(exterior, proj);
        if IsLinearRing(ring) then Ok([ring]) else Err(InvalidRing)
  }

  /** The shadow feature of one building: the cleaned polygon, no properties.
      It fails with the outline's error, or when cleaning throws. */
  function ShadowOf(b: Building, sun: SunPosition, math: SunMath, turf: Turf): (r: Result<Feature, ShadowError>)
    ensures r.Ok? <==>
      && ShadowOutline(b, sun, math, turf).Ok?
      && turf.cleanCoords(Polygon(ShadowOutline(b, sun, math, turf).value)).Some?
    ensures ShadowOutline(b, sun, math, turf).Err? ==> r == Err(ShadowOutline(b, sun, math, turf).error)
    ensures ShadowOutline(b, sun, math, turf).Ok? && turf.cleanCoords(Polygon(ShadowOutline(b, sun, math, turf).value)).None? ==>
      r == Err(CleanFailed)
    ensures r.Ok? ==>
      r.value == Feature(Some(turf.cleanCoords(Polygon(ShadowOutline(b, sun, math, turf).value)).value), map[])
  {
    var rings :- ShadowOutline(b, sun, math, turf);
    var cleaned :- turf.cleanCoords(Polygon(rings)).ToResult(CleanFailed);
    Ok(Feature(Some(cleaned), map[]))
  }

  /** `buildings.map(...)`: one shadow per building in order, or the error of
      the first building whose shadow cannot be built. */
  function ShadowsOf(buildings: seq<Building>, sun: SunPosition, math: SunMath, turf: Turf): (r: Result<seq<Feature>, ShadowError>)
    ensures r.Ok? <==> forall i :: 0 <= i < |buildings| ==> ShadowOf(buildings[i], sun, math, turf).Ok?
    ensures r.Ok? ==> |r.value| == |buildings|
    ensures r.Ok? ==> forall i :: 0 <= i < |buildings| ==> ShadowOf(buildings[i], sun, math, turf) == Ok(r.value[i])
    ensures r.Err? ==> exists i :: 0 <= i < |buildings| && ShadowOf(buildings[i], sun, math, turf) == Err(r.error)
                                   && forall j :: 0 <= j < i ==> ShadowOf(buildings[j], sun, math, turf).Ok?
    decreases |buildings|
  {
    if |buildings| == 0 then Ok([])
    else
      var first :- ShadowOf(buildings[0], sun, math, turf);
      var rest :- ShadowsOf(buildings[1..], sun, math, turf);
      Ok([first] + rest)
  }

  /** `computeProjectedShadows`: no shadows while the sun is at or below the
      horizon, otherwise one shadow polygon per building, in building order. */
  function ComputeProjectedShadows(buildings: seq<Building>, sun: SunPosition, math: SunMath, turf: Turf): (r: Result<Document, ShadowError>)
    ensures sun.altitude <= 0.0 ==> r == Ok(EmptyCollection)
    ensures r.Ok? ==> r.value.crs.None? && r.value.body.FeatureCollection?
    ensures sun.altitude > 0.0 ==>
      (r.Ok? <==> forall i :: 0 <= i < |buildings| ==> ShadowOf(buildings[i], sun, math, turf).Ok?)
    ensures sun.altitude > 0.0 && r.Ok? ==>
      && |r.value.body.features| == |buildings|
      && forall i :: 0 <= i < |buildings| ==> ShadowOf(buildings[i], sun, math, turf) == Ok(r.value.body.features[i])
  {
    if sun.altitude <= 0.0 then Ok(EmptyCollection)
    else
      var shadows :- ShadowsOf(buildings, sun, math, turf);
      Ok(Document(FeatureCollection(shadows), None))
  }

  /** Every shadow the projection produces has a polygon geometry. */
  lemma ShadowsHaveGeometry(buildings: seq<Building>, sun: SunPosition, math: SunMath, turf: Turf)
    requires ComputeProjectedShadows(buildings, sun, math, turf).Ok?
    ensures forall f :: f in ComputeProjectedShadows(buildings, sun, math, turf).value.body.features ==> f.geometry.Some?
  {
  }
}
