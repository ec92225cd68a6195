/** Point-in-shadow queries and the sunlit share of a terrace (main.js). A
    terrace is sampled on a regular grid clipped to its polygon; the share is
    the rounded percentage of samples outside every shadow, with a one-point
    test at the terrace's center when no sample falls inside, and 100 whenever
    something throws. */
module Sunlight {
  import opened Wrappers
  import opened JsonValue
  import opened GeoJson
  import opened TurfLib
  import opened Counting

  /** Why a point-in-shadow query throws: reading the type of a `null`
      geometry, reading a geometry that has no rings as if it had, or a throw
      inside the library's own test. */
  datatype QueryError = NullGeometry | NotRings | LibraryThrew

  /** `booleanPointInPolygon` reads a geometry's `coordinates` as a list of
      polygons (a Polygon's as a single one) and indexes the first ring of
      each. A GeometryCollection has no `coordinates`, and the first entry of
      a non-empty MultiPoint or LineString is one position, so indexing it as
      rings reaches into a number or `undefined` and throws a TypeError. */
  predicate Unreadable(g: Geometry) {
    || g.GeometryCollection?
    || (g.MultiPoint? && |g.points| > 0)
    || (g.LineString? && |g.line| > 0)
  }

  /** An empty MultiPoint or LineString offers no polygon to examine. */
  predicate NoPolygons(g: Geometry) {
    (g.MultiPoint? && |g.points| == 0) || (g.LineString? && |g.line| == 0)
  }

  /** `turf.booleanPointInPolygon(pt, f)` for a feature with geometry `g`:
      a TypeError before the library's test is reached, false when there is
      nothing to examine, otherwise the library's answer or its throw. */
  function PointInPolygon(pt: Position, g: Geometry, turf: Turf): (r: Result<bool, QueryError>)
    ensures Unreadable(g) ==> r == Err(NotRings)
    ensures NoPolygons(g) ==> r == Ok(false)
    ensures r == Ok(true) ==> !Unreadable(g) && !NoPolygons(g) && turf.booleanPointInPolygon(pt, g) == Some(true)
    ensures IsPolygonal(g) ==> (r.Ok? <==> turf.booleanPointInPolygon(pt, g).Some?)
    ensures IsPolygonal(g) && r.Ok? ==> Some(r.value) == turf.booleanPointInPolygon(pt, g)
  {
    if Unreadable(g) then Err(NotRings)
    else if NoPolygons(g) then Ok(false)
    else turf.booleanPointInPolygon(pt, g).ToResult(LibraryThrew)
  }

  /** What examining one feature of the collection gives. */
  function Examine(pt: Position, f: Feature, turf: Turf): (r: Result<bool, QueryError>)
    ensures f.geometry.None? ==> r == Err(NullGeometry)
    ensures f.geometry.Some? ==> r == PointInPolygon(pt, f.geometry.value, turf)
  {
    match f.geometry
    case None => Err(NullGeometry)
    case Some(g) => PointInPolygon(pt, g, turf)
  }

  ghost predicate Hits(pt: Position, f: Feature, turf: Turf) {
    Examine(pt, f, turf) == Ok(true)
  }

  ghost predicate Misses(pt: Position, f: Feature, turf: Turf) {
    Examine(pt, f, turf) == Ok(false)
  }

  /** Examining `f` throws: its geometry is `null`, or the test throws. */
  ghost predicate Throws(pt: Position, f: Feature, turf: Turf) {
    Examine(pt, f, turf).Err?
  }

  /** `features.some(f => turf.booleanPointInPolygon(pt, f))`: stops at the
      first feature that contains the point or that throws. */
  function AnyContains(pt: Position, features: seq<Feature>, turf: Turf): (r: Result<bool, QueryError>)
    decreases |features|
  {
    if |features| == 0 then Ok(false)
    else match Examine(pt, features[0], turf)
      case Err(e) => Err(e)
      case Ok(hit) => if hit then Ok(true) else AnyContains(pt, features[1..], turf)
  }

  /** Every feature before index `i` was examined and misses the point. */
  ghost predicate MissesBefore(pt: Position, features: seq<Feature>, i: int, turf: Turf)
    requires 0 <= i <= |features|
  {
    forall j :: 0 <= j < i ==> Misses(pt, features[j], turf)
  }

  /** The short-circuit search answers true when some feature contains the
      point and every feature before it was examined, false when every feature
      was examined and none contains it, and throws at the first feature
      reached whose examination throws. */
  lemma AnyContainsSpec(pt: Position, features: seq<Feature>, turf: Turf)
    ensures AnyContains(pt, features, turf) == Ok(true) <==>
      exists i :: 0 <= i < |features| && Hits(pt, features[i], turf) && MissesBefore(pt, features, i, turf)
    ensures AnyContains(pt, features, turf) == Ok(false) <==> MissesBefore(pt, features, |features|, turf)
    ensures AnyContains(pt, features, turf).Err? <==>
      exists i :: 0 <= i < |features| && Throws(pt, features[i], turf) && MissesBefore(pt, features, i, turf)
  {
    AnyContainsTrue(pt, features, turf);
    AnyContainsFalse(pt, features, turf);
    AnyContainsErr(pt, features, turf);
  }

  /** Past a first feature that misses, "every feature before `i` misses"
      is the same statement about the rest before `i - 1`. */
  lemma MissesBeforeShift(pt: Position, features: seq<Feature>, turf: Turf)
    requires |features| > 0 && Misses(pt, features[0], turf)
    ensures forall i :: 1 <= i <= |features| ==>
      (MissesBefore(pt, features, i, turf) <==> MissesBefore(pt, features[1..], i - 1, turf))
  {
    var rest := features[1..];
    forall i | 1 <= i <= |features|
      ensures MissesBefore(pt, features, i, turf) <==> MissesBefore(pt, rest, i - 1, turf)
    {
      assert forall j :: 0 <= j < i - 1 ==> rest[j] == features[j + 1];
    }
  }

  /** The search answers true iff a hit is reached past misses only. */
  lemma {:induction false} AnyContainsTrue(pt: Position, features: seq<Feature>, turf: Turf)
    ensures AnyContains(pt, features, turf) == Ok(true) <==>
      exists i :: 0 <= i < |features| && Hits(pt, features[i], turf) && MissesBefore(pt, features, i, turf)
    decreases |features|
  {
    if |features| > 0 {
      var rest := features[1..];
      if Misses(pt, features[0], turf) {
        AnyContainsTrue(pt, rest, turf);
        MissesBeforeShift(pt, features, turf);
        if exists i :: 0 <= i < |features| && Hits(pt, features[i], turf) && MissesBefore(pt, features, i, turf) {
          var i :| 0 <= i < |features| && Hits(pt, features[i], turf) && MissesBefore(pt, features, i, turf);
          assert i >= 1 && Hits(pt, rest[i - 1], turf) && MissesBefore(pt, rest, i - 1, turf);
        }
        if exists i :: 0 <= i < |rest| && Hits(pt, rest[i], turf) && MissesBefore(pt, rest, i, turf) {
          var i :| 0 <= i < |rest| && Hits(pt, rest[i], turf) && MissesBefore(pt, rest, i, turf);
          assert Hits(pt, features[i + 1], turf) && MissesBefore(pt, features, i + 1, turf);
        }
      } else {
        assert forall i :: 0 < i <= |features| ==> !MissesBefore(pt, features, i, turf);
        assert MissesBefore(pt, features, 0, turf);
      }
    }
  }

  /** The search answers false iff every feature misses. */
  lemma {:induction false} AnyContainsFalse(pt: Position, features: seq<Feature>, turf: Turf)
    ensures AnyContains(pt, features, turf) == Ok(false) <==> MissesBefore(pt, features, |features|, turf)
    decreases |features|
  {
    if |features| > 0 {
      AnyContainsFalse(pt, features[1..], turf);
      if Misses(pt, features[0], turf) {
        MissesBeforeShift(pt, features, turf);
      } else {
        assert !MissesBefore(pt, features, |features|, turf);
      }
    }
  }

  /** The search throws iff a throwing feature is reached past misses only. */
  lemma {:induction false} AnyContainsErr(pt: Position, features: seq<Feature>, turf: Turf)
    ensures AnyContains(pt, features, turf).Err? <==>
      exists i :: 0 <= i < |features| && Throws(pt, features[i], turf) && MissesBefore(pt, features, i, turf)
    decreases |features|
  {
    if |features| > 0 {
      var rest := features[1..];
      if Misses(pt, features[0], turf) {
        AnyContainsErr(pt, rest, turf);
        MissesBeforeShift(pt, features, turf);
        if exists i :: 0 <= i < |features| && Throws(pt, features[i], turf) && MissesBefore(pt, features, i, turf) {
          var i :| 0 <= i < |features| && Throws(pt, features[i], turf) && MissesBefore(pt, features, i, turf);
          assert i >= 1 && Throws(pt, rest[i - 1], turf) && MissesBefore(pt, rest, i - 1, turf);
        }
        if exists i :: 0 <= i < |rest| && Throws(pt, rest[i], turf) && MissesBefore(pt, rest, i, turf) {
          var i :| 0 <= i < |rest| && Throws(pt, rest[i], turf) && MissesBefore(pt, rest, i, turf);
          assert Throws(pt, features[i + 1], turf) && MissesBefore(pt, features, i + 1, turf);
        }
      } else {
        assert forall i :: 0 < i <= |features| ==> !MissesBefore(pt, features, i, turf);
        assert MissesBefore(pt, features, 0, turf);
      }
    }
  }

  /** `isPointInShadow`: a feature collection is searched feature by feature;
      a single feature or a bare geometry is examined only when it is a Polygon
      or a MultiPolygon; anything else is not in shadow. */
  function IsPointInShadow(pt: Position, shadows: Document, turf: Turf): (r: Result<bool, QueryError>)
    ensures shadows.body.FeatureCollection? && (forall f :: f in shadows.body.features ==> !Throws(pt, f, turf)) ==>
      && r.Ok?
      && (r.value <==> exists i :: 0 <= i < |shadows.body.features| && Hits(pt, shadows.body.features[i], turf))
    ensures shadows.body.FeatureCollection? && r == Ok(true) ==>
      exists i :: 0 <= i < |shadows.body.features| && Hits(pt, shadows.body.features[i], turf)
    ensures shadows.body.SingleFeature? ==>
      var f := shadows.body.feature;
      && (r.Err? <==> f.geometry.None? || (IsPolygonal(f.geometry.value) && turf.booleanPointInPolygon(pt, f.geometry.value).None?))
      && (r == Ok(true) <==> f.geometry.Some? && IsPolygonal(f.geometry.value) && turf.booleanPointInPolygon(pt, f.geometry.value) == Some(true))
    ensures shadows.body.BareGeometry? ==>
      var g := shadows.body.geometry;
      && (r.Err? <==> IsPolygonal(g) && turf.booleanPointInPolygon(pt, g).None?)
      && (r == Ok(true) <==> IsPolygonal(g) && turf.booleanPointInPolygon(pt, g) == Some(true))
  {
    match shadows.body
    case FeatureCollection(features) =>
      AnyContainsSpec(pt, features, turf);
      assert (forall f :: f in features ==> !Throws(pt, f, turf)) ==> forall i :: 0 <= i < |features| ==> !Throws(pt, features[i], turf);
      AnyContains(pt, features, turf)
    case SingleFeature(f) =>
      (match f.geometry
       case None => Err(NullGeometry)
       case Some(g) => if IsPolygonal(g) then PointInPolygon(pt, g, turf) else Ok(false))
    case BareGeometry(g) => if IsPolygonal(g) then PointInPolygon(pt, g, turf) else Ok(false)
  }

  /** With no shadows at all, no point is in shadow. */
  lemma NothingInEmptyShadow(pt: Position, turf: Turf)
    ensures IsPointInShadow(pt, EmptyCollection, turf) == Ok(false)
  {
  }

  // ---------------------------------------------------------------------------
  // Sunlit share of a terrace

  /** Grid spacing of the sampling, in meters. */
  const CellSize: real := 0.5

  datatype SunFailure = LibraryFailure | QueryFailed(error: QueryError)

  /** The point-in-shadow query as a test on samples. */
  function InShadow(shadows: Document, turf: Turf): Position -> Result<bool, QueryError> {
    pt => IsPointInShadow(pt, shadows, turf)
  }

  /** Counts the samples not in shadow, stopping at the first query that throws. */
  function CountSunny(points: seq<Position>, shadows: Document, turf: Turf): (r: Result<nat, QueryError>)
    ensures r.Ok? <==> forall i :: 0 <= i < |points| ==> IsPointInShadow(points[i], shadows, turf).Ok?
    ensures r.Ok? ==> r.value <= |points|
    ensures r.Ok? ==> (r.value == 0 <==> forall i :: 0 <= i < |points| ==> IsPointInShadow(points[i], shadows, turf) == Ok(true))
    ensures r.Ok? ==> (r.value == |points| <==> forall i :: 0 <= i < |points| ==> IsPointInShadow(points[i], shadows, turf) == Ok(false))
  {
    CountFalse(points, InShadow(shadows, turf))
  }

  /** The positions of the samples not in shadow. */
  ghost function SunnyIndices(points: seq<Position>, shadows: Document, turf: Turf): (ix: set<int>)
    ensures forall i :: i in ix ==> 0 <= i < |points|
  {
    set i | 0 <= i < |points| && IsPointInShadow(points[i], shadows, turf) == Ok(false)
  }

  /** Counting the samples of `a + b` adds the counts of `a` and of `b`. */
  lemma CountSunnyAppend(a: seq<Position>, b: seq<Position>, shadows: Document, turf: Turf)
    requires CountSunny(a + b, shadows, turf).Ok?
    ensures CountSunny(a, shadows, turf).Ok? && CountSunny(b, shadows, turf).Ok?
    ensures CountSunny(a + b, shadows, turf).value == CountSunny(a, shadows, turf).value + CountSunny(b, shadows, turf).value
  {
    CountFalseAppend(a, b, InShadow(shadows, turf));
  }

  /** The count is the number of samples not in shadow. */
  lemma CountSunnyCounts(points: seq<Position>, shadows: Document, turf: Turf)
    requires CountSunny(points, shadows, turf).Ok?
    ensures CountSunny(points, shadows, turf).value == |SunnyIndices(points, shadows, turf)|
  {
    var q := InShadow(shadows, turf);
    CountFalseCounts(points, q);
    assert SunnyIndices(points, shadows, turf) == FalseAt(points, q);
  }

  /** `Math.round(sunny / total * 100)` in exact arithmetic. */
  function RoundedPercent(sunny: nat, total: nat): (p: int)
    requires 0 < total && sunny <= total
    ensures 0 <= p <= 100
    ensures 2 * p * total - total <= 200 * sunny < 2 * p * total + total
    ensures sunny == 0 ==> p == 0
    ensures sunny == total ==> p == 100
  {
    var p := (200 * sunny + total) / (2 * total);
    RoundingBracket(sunny, total, p);
    RoundingRange(sunny, total, p);
    p
  }

  /** `p` is the quotient that `Math.round` picks: within one half of
      `100 * sunny / total`. */
  lemma RoundingBracket(sunny: nat, total: nat, p: int)
    requires 0 < total && p == (200 * sunny + total) / (2 * total)
    ensures 2 * p * total - total <= 200 * sunny < 2 * p * total + total
  {
    DivBounds(200 * sunny + total, 2 * total);
  }

  lemma RoundingRange(sunny: nat, total: nat, p: int)
    requires 0 < total && sunny <= total
    requires 2 * p * total - total <= 200 * sunny < 2 * p * total + total
    ensures 0 <= p <= 100
    ensures sunny == 0 ==> p == 0
    ensures sunny == total ==> p == 100
  {
    MulCancel(total, 2 * p, 201);
    if p < 0 {
      MulCancel(total, 2 * p + 2, 0);
    }
    if sunny == 0 {
      MulCancel(total, 2 * p, 1);
    }
    if sunny == total && p < 100 {
      MulCancel(total, 2 * p + 2, 200);
    }
  }

  lemma DivBounds(n: nat, d: nat)
    requires d > 0
    ensures d * (n / d) <= n < d * (n / d) + d
  {
  }

  /** A positive factor can be cancelled from both sides of `<=`. */
  lemma MulCancel(t: int, a: int, b: int)
    requires t > 0 && t * a <= t * b
    ensures a <= b
  {
    if a > b {
      assert t * a - t * b == t * (a - b);
      MulPositive(t, a - b);
    }
  }

  lemma MulPositive(x: int, y: int)
    requires x > 0 && y > 0
    ensures x * y > 0
  {
  }

  /** The grid points that fall inside the terrace, or `None` when building
      them throws. */
  function Samples(g: Geometry, turf: Turf): Option<seq<Position>> {
    match turf.bbox(g)
    case None => None
    case Some(box) =>
      match turf.pointGrid(box, CellSize)
      case None => None
      case Some(grid) => turf.pointsWithinPolygon(grid, g)
  }

  /** The body of the `try` in `computeSunPercentage`. */
  function TrySunPercentage(terrace: Feature, shadows: Document, turf: Turf): Result<int, SunFailure> {
    match terrace.geometry
    case None => Ok(100)
    case Some(g) =>
      match Samples(g, turf)
      case None => Err(LibraryFailure)
      case Some(inside) =>
        if |inside| == 0 then
          match turf.center(g)
          case None => Err(LibraryFailure)
          case Some(c) =>
            match IsPointInShadow(c, shadows, turf)
            case Err(e) => Err(QueryFailed(e))
            case Ok(shadowed) => Ok(if shadowed then 0 else 100)
        else
          match CountSunny(inside, shadows, turf)
          case Err(e) => Err(QueryFailed(e))
          case Ok(sunny) => Ok(RoundedPercent(sunny, |inside|))
  }

  /** `computeSunPercentage`: always a percentage; 100 for a terrace without
      geometry and whenever the computation throws. */
  function ComputeSunPercentage(terrace: Feature, shadows: Document, turf: Turf): (p: int)
    ensures 0 <= p <= 100
    ensures terrace.geometry.None? ==> p == 100
    ensures TrySunPercentage(terrace, shadows, turf).Err? ==> p == 100
  {
    match TrySunPercentage(terrace, shadows, turf)
    case Ok(p) => p
    case Err(_) => 100
  }

  /** With at least one sample inside the terrace and every query answered,
      the result is the rounded share of sunlit samples: 0 when every sample is
      in shadow, 100 when none is. */
  lemma SampledPercentage(terrace: Feature, shadows: Document, turf: Turf)
    requires terrace.geometry.Some?
    requires Samples(terrace.geometry.value, turf).Some?
    requires |Samples(terrace.geometry.value, turf).value| > 0
    requires CountSunny(Samples(terrace.geometry.value, turf).value, shadows, turf).Ok?
    ensures var inside := Samples(terrace.geometry.value, turf).value;
      var p := ComputeSunPercentage(terrace, shadows, turf);
      && 2 * p * |inside| - |inside| <= 200 * CountSunny(inside, shadows, turf).value < 2 * p * |inside| + |inside|
      && 2 * p * |inside| - |inside| <= 200 * |SunnyIndices(inside, shadows, turf)| < 2 * p * |inside| + |inside|
      && ((forall i :: 0 <= i < |inside| ==> IsPointInShadow(inside[i], shadows, turf) == Ok(true)) ==> p == 0)
      && ((forall i :: 0 <= i < |inside| ==> IsPointInShadow(inside[i], shadows, turf) == Ok(false)) ==> p == 100)
  {
    CountSunnyCounts(Samples(terrace.geometry.value, turf).value, shadows, turf);
  }

  /** With no sample inside the terrace the answer is binary: 0 when the
      center is in shadow and 100 otherwise. */
  lemma CenterFallback(terrace: Feature, shadows: Document, turf: Turf)
    requires terrace.geometry.Some?
    requires Samples(terrace.geometry.value, turf) == Some([])
    ensures var p := ComputeSunPercentage(terrace, shadows, turf);
      && (p == 0 || p == 100)
      && (p == 0 <==> exists c :: turf.center(terrace.geometry.value) == Some(c) && IsPointInShadow(c, shadows, turf) == Ok(true))
  {
  }

  /** When there are no shadows (the sun is down), every terrace is fully sunlit. */
  lemma NoShadowFullSun(terrace: Feature, turf: Turf)
    ensures ComputeSunPercentage(terrace, EmptyCollection, turf) == 100
  {
    if terrace.geometry.Some? {
      var g := terrace.geometry.value;
      if Samples(g, turf).Some? {
        var inside := Samples(g, turf).value;
        forall i | 0 <= i < |inside|
          ensures IsPointInShadow(inside[i], EmptyCollection, turf) == Ok(false)
        {
          NothingInEmptyShadow(inside[i], turf);
        }
      }
    }
  }
}
