/** The list of sunny terraces near the marker (main.js): every terrace whose
    anchor point lies within 100 meters of the marker and that gets some sun
    is annotated with its rounded distance and its sunlit percentage, and the
    list is sorted nearest first; and the badge each entry is shown with. */
module Ranking {
  import opened Wrappers
  import opened JsonValue
  import opened GeoJson
  import opened TurfLib
  import opened StableSort
  import opened Text
  import opened Sunlight

  /** Search radius around the marker, in meters. */
  const Radius: real := 100.0

  /** JavaScript `Math.round`: the nearest integer, halves rounded up. */
  function Round(x: real): (n: int)
    ensures n as real - 0.5 <= x < n as real + 0.5
  {
    (x + 0.5).Floor
  }

  /** A listed terrace: the feature with `distance` and `sunPercentage` added
      to its properties, and those two numbers. */
  datatype Ranked = Ranked(feature: Feature, distance: int, sunPercentage: int)

  /** The sort key, `properties.distance`. */
  function DistanceKey(r: Ranked): int {
    r.distance
  }

  /** The fallback anchor exists: a Polygon whose first ring has a vertex. */
  predicate HasFirstVertex(g: Geometry) {
    g.Polygon? && |g.rings| > 0 && |g.rings[0]| > 0
  }

  /** Where the distance is measured from: the centroid, or, when computing
      it throws, the first vertex of a Polygon's first ring; `Ok(None)` skips
      the terrace. Reading the type of a `null` geometry in the handler
      throws out of the whole update. */
  function Anchor(terrace: Feature, turf: Turf): (r: Result<Option<Position>, QueryError>)
    ensures turf.centroid(terrace).Some? ==> r == Ok(turf.centroid(terrace))
    ensures r.Err? <==> turf.centroid(terrace).None? && terrace.geometry.None?
    ensures r == Ok(None) <==>
      turf.centroid(terrace).None? && terrace.geometry.Some? && !HasFirstVertex(terrace.geometry.value)
    ensures turf.centroid(terrace).None? && r.Ok? && r.value.Some? ==>
      terrace.geometry.Some? && r.value.value in terrace.geometry.value.rings[0]
  {
    match turf.centroid(terrace)
    case Some(c) => Ok(Some(c))
    case None =>
      match terrace.geometry
      case None => Err(NullGeometry)
      case Some(g) => if HasFirstVertex(g) then Ok(Some(g.rings[0][0])) else Ok(None)
  }

  /** The terrace's properties with the two annotations added. */
  function Annotate(terrace: Feature, distance: int, sunPercentage: int): (f: Feature)
    ensures f.geometry == terrace.geometry
    ensures f.properties.Keys == terrace.properties.Keys + {"distance", "sunPercentage"}
    ensures f.properties["distance"] == JNum(distance as real)
    ensures f.properties["sunPercentage"] == JNum(sunPercentage as real)
    ensures forall k :: k in terrace.properties && k != "distance" && k != "sunPercentage" ==>
      f.properties[k] == terrace.properties[k]
  {
    Feature(terrace.geometry,
      terrace.properties["distance" := JNum(distance as real)]["sunPercentage" := JNum(sunPercentage as real)])
  }

  /** A listed entry is within the radius and gets some sun, and its feature
      carries its two numbers. */
  predicate WellFormed(r: Ranked) {
    && r.distance <= 100
    && 0 < r.sunPercentage <= 100
    && r.feature.properties.Keys >= {"distance", "sunPercentage"}
    && r.feature.properties["distance"] == JNum(r.distance as real)
    && r.feature.properties["sunPercentage"] == JNum(r.sunPercentage as real)
  }

  /** One step of the `forEach`: the entry the terrace contributes, if any. */
  function Candidate(terrace: Feature, marker: Position, shadows: Document, turf: Turf): (r: Result<Option<Ranked>, QueryError>)
    ensures r.Err? <==> Anchor(terrace, turf).Err?
    ensures r.Ok? && r.value.Some? <==>
      && Anchor(terrace, turf).Ok? && Anchor(terrace, turf).value.Some?
      && turf.distance(marker, Anchor(terrace, turf).value.value) <= Radius
      && ComputeSunPercentage(terrace, shadows, turf) > 0
    ensures r.Ok? && r.value.Some? ==>
      && WellFormed(r.value.value)
      && r.value.value.feature == Annotate(terrace, r.value.value.distance, r.value.value.sunPercentage)
      && r.value.value.sunPercentage == ComputeSunPercentage(terrace, shadows, turf)
      && var d := turf.distance(marker, Anchor(terrace, turf).value.value);
         r.value.value.distance as real - 0.5 <= d < r.value.value.distance as real + 0.5
  {
    var anchor :- Anchor(terrace, turf);
    match anchor
    case None => Ok(None)
    case Some(a) =>
      var d := turf.distance(marker, a);
      if d <= Radius then
        var sun := ComputeSunPercentage(terrace, shadows, turf);
        if sun > 0 then Ok(Some(Ranked(Annotate(terrace, Round(d), sun), Round(d), sun)))
        else Ok(None)
      else Ok(None)
  }

  /** The terrace at index `i` contributes `x`. */
  ghost predicate ContributedBy(x: Ranked, terraces: seq<Feature>, i: int, marker: Position, shadows: Document, turf: Turf)
    requires 0 <= i < |terraces|
  {
    Candidate(terraces[i], marker, shadows, turf) == Ok(Some(x))
  }

  /** The `forEach` over all terraces, in order; the first terrace that throws
      aborts the update. */
  function Candidates(terraces: seq<Feature>, marker: Position, shadows: Document, turf: Turf): (r: Result<seq<Ranked>, QueryError>)
    ensures r.Ok? <==> forall i :: 0 <= i < |terraces| ==> Candidate(terraces[i], marker, shadows, turf).Ok?
    ensures r.Ok? ==> |r.value| <= |terraces|
    decreases |terraces|
  {
    if |terraces| == 0 then Ok([])
    else
      var first :- Candidate(terraces[0], marker, shadows, turf);
      var rest :- Candidates(terraces[1..], marker, shadows, turf);
      assert forall i :: 1 <= i < |terraces| ==> terraces[i] == terraces[1..][i - 1];
      Ok((if first.Some? then [first.value] else []) + rest)
  }

  /** The candidates are exactly the entries the terraces contribute: each is
      well formed and comes from some terrace, and each contribution is there. */
  lemma {:induction false} CandidatesSpec(terraces: seq<Feature>, marker: Position, shadows: Document, turf: Turf)
    requires Candidates(terraces, marker, shadows, turf).Ok?
    ensures var c := Candidates(terraces, marker, shadows, turf).value;
      && (forall x :: x in c ==> WellFormed(x))
      && (forall x :: x in c ==> exists i :: 0 <= i < |terraces| && ContributedBy(x, terraces, i, marker, shadows, turf))
      && (forall i, x :: 0 <= i < |terraces| && ContributedBy(x, terraces, i, marker, shadows, turf) ==> x in c)
    decreases |terraces|
  {
    if |terraces| > 0 {
      var rest := terraces[1..];
      CandidatesSpec(rest, marker, shadows, turf);
      var first := Candidate(terraces[0], marker, shadows, turf).value;
      var mine := if first.Some? then [first.value] else [];
      var c := Candidates(terraces, marker, shadows, turf).value;
      var cr := Candidates(rest, marker, shadows, turf).value;
      assert c == mine + cr;
      forall x | x in c
        ensures WellFormed(x) && exists i :: 0 <= i < |terraces| && ContributedBy(x, terraces, i, marker, shadows, turf)
      {
        if x in cr {
          var j :| 0 <= j < |rest| && ContributedBy(x, rest, j, marker, shadows, turf);
          assert rest[j] == terraces[j + 1];
          assert ContributedBy(x, terraces, j + 1, marker, shadows, turf);
        } else {
          assert ContributedBy(x, terraces, 0, marker, shadows, turf);
        }
      }
      forall i, x | 0 <= i < |terraces| && ContributedBy(x, terraces, i, marker, shadows, turf)
        ensures x in c
      {
        if i > 0 {
          assert rest[i - 1] == terraces[i];
          assert ContributedBy(x, rest, i - 1, marker, shadows, turf);
        }
      }
    }
  }

  /** What each terrace contributes, in terrace order, when none throws. */
  ghost function Outcomes(terraces: seq<Feature>, marker: Position, shadows: Document, turf: Turf): (os: seq<Option<Ranked>>)
    requires forall i :: 0 <= i < |terraces| ==> Candidate(terraces[i], marker, shadows, turf).Ok?
  {
    seq(|terraces|, i requires 0 <= i < |terraces| && Candidate(terraces[i], marker, shadows, turf).Ok? =>
      Candidate(terraces[i], marker, shadows, turf).value)
  }

  lemma {:induction false} CandidatesAreSomes(terraces: seq<Feature>, marker: Position, shadows: Document, turf: Turf)
    requires Candidates(terraces, marker, shadows, turf).Ok?
    ensures Candidates(terraces, marker, shadows, turf).value == Somes(Outcomes(terraces, marker, shadows, turf))
    decreases |terraces|
  {
    if |terraces| > 0 {
      var rest := terraces[1..];
      CandidatesAreSomes(rest, marker, shadows, turf);
      var os := Outcomes(terraces, marker, shadows, turf);
      assert os[1..] == Outcomes(rest, marker, shadows, turf);
    }
  }

  /** `ix` lists, in increasing order, exactly the indices of the terraces
      that contribute, and `c[k]` is the contribution of terrace `ix[k]`. */
  ghost predicate InTerraceOrder(c: seq<Ranked>, ix: seq<int>, terraces: seq<Feature>, marker: Position, shadows: Document, turf: Turf) {
    && |ix| == |c|
    && (forall k :: 0 <= k < |ix| ==> 0 <= ix[k] < |terraces| && ContributedBy(c[k], terraces, ix[k], marker, shadows, turf))
    && (forall k, m :: 0 <= k < m < |ix| ==> ix[k] < ix[m])
    && (forall i, x :: 0 <= i < |terraces| && ContributedBy(x, terraces, i, marker, shadows, turf) ==> i in ix)
  }

  /** The candidates are the contributions in terrace order, each
      contributing terrace once. */
  lemma CandidatesInOrder(terraces: seq<Feature>, marker: Position, shadows: Document, turf: Turf)
    requires Candidates(terraces, marker, shadows, turf).Ok?
    ensures exists ix :: InTerraceOrder(Candidates(terraces, marker, shadows, turf).value, ix, terraces, marker, shadows, turf)
  {
    var c := Candidates(terraces, marker, shadows, turf).value;
    var os := Outcomes(terraces, marker, shadows, turf);
    CandidatesAreSomes(terraces, marker, shadows, turf);
    var ix := SomesIndexed(os);
    forall k | 0 <= k < |ix|
      ensures 0 <= ix[k] < |terraces| && ContributedBy(c[k], terraces, ix[k], marker, shadows, turf)
    {
      assert os[ix[k]] == Some(c[k]);
    }
    forall i, x | 0 <= i < |terraces| && ContributedBy(x, terraces, i, marker, shadows, turf)
      ensures i in ix
    {
      assert os[i] == Some(x);
    }
    assert InTerraceOrder(c, ix, terraces, marker, shadows, turf);
  }

  /** `updateSunnyTerraces`: nothing unless the terrace source is a non-empty
      feature collection; otherwise the candidates, stably sorted by distance. */
  function UpdateSunnyTerraces(marker: Position, terraces: Document, shadows: Document, turf: Turf): (r: Result<seq<Ranked>, QueryError>)
    ensures !terraces.body.FeatureCollection? ==> r == Ok([])
    ensures terraces.body.FeatureCollection? ==>
      var c := Candidates(terraces.body.features, marker, shadows, turf);
      && (r.Ok? <==> c.Ok?)
      && (r.Ok? ==>
        && SortedBy(r.value, DistanceKey)
        && multiset(r.value) == multiset(c.value)
        && (forall k :: WithKey(r.value, DistanceKey, k) == WithKey(c.value, DistanceKey, k)))
  {
    match terraces.body
    case FeatureCollection(features) =>
      if |features| == 0 then Ok([])
      else
        var candidates :- Candidates(features, marker, shadows, turf);
        SortIsStable(candidates, DistanceKey);
        Ok(Sort(candidates, DistanceKey))
    case _ => Ok([])
  }

  /** Every listed entry is within the radius, gets some sun, and comes from
      one of the terraces; every terrace that qualifies is listed. */
  lemma ListedIffQualifies(marker: Position, terraces: Document, shadows: Document, turf: Turf)
    requires terraces.body.FeatureCollection?
    requires UpdateSunnyTerraces(marker, terraces, shadows, turf).Ok?
    ensures var fs := terraces.body.features;
      var listed := UpdateSunnyTerraces(marker, terraces, shadows, turf).value;
      && (forall x :: x in listed ==> WellFormed(x) && exists i :: 0 <= i < |fs| && ContributedBy(x, fs, i, marker, shadows, turf))
      && (forall i, x :: 0 <= i < |fs| && ContributedBy(x, fs, i, marker, shadows, turf) ==> x in listed)
  {
    var fs := terraces.body.features;
    var listed := UpdateSunnyTerraces(marker, terraces, shadows, turf).value;
    var c := Candidates(fs, marker, shadows, turf).value;
    CandidatesSpec(fs, marker, shadows, turf);
    assert forall x :: x in listed <==> x in c by {
      assert forall x :: x in listed <==> x in multiset(listed);
      assert forall x :: x in c <==> x in multiset(c);
    }
  }

  /** With the sun below the horizon there are no shadows, so every terrace
      with an anchor within the radius is listed, fully sunlit. */
  lemma SunDownListsAllNearby(terrace: Feature, marker: Position, turf: Turf)
    requires Anchor(terrace, turf).Ok? && Anchor(terrace, turf).value.Some?
    requires turf.distance(marker, Anchor(terrace, turf).value.value) <= Radius
    ensures Candidate(terrace, marker, EmptyCollection, turf).Ok?
    ensures Candidate(terrace, marker, EmptyCollection, turf).value.Some?
    ensures Candidate(terrace, marker, EmptyCollection, turf).value.value.sunPercentage == 100
  {
    NoShadowFullSun(terrace, turf);
  }

  // ---------------------------------------------------------------------------
  // Badge of a listed terrace

  datatype Badge = Default | TerrasseOuverte | TerrasseFermee | Etalage | Commerce

  /** The CSS class the list item's badge gets. */
  function ClassName(b: Badge): string {
    match b
    case Default => "badge-default"
    case TerrasseOuverte => "badge-terrasse-ouverte"
    case TerrasseFermee => "badge-terrasse-fermee"
    case Etalage => "badge-etalage"
    case Commerce => "badge-commerce"
  }

  /** Calling `toLowerCase` on a truthy `libelle_type` that is not a string. */
  datatype BadgeError = NotAString

  /** The badge for a `libelle_type`: the first of the four keywords found in
      its lower-cased text, else the default; an absent or falsy value gets the
      default. */
  function BadgeOf(libelle: Option<Json>): (r: Result<Badge, BadgeError>)
    ensures r.Err? <==> JsTruthy(libelle) && !libelle.value.JStr?
    ensures !JsTruthy(libelle) ==> r == Ok(Default)
    ensures JsTruthy(libelle) && libelle.value.JStr? ==>
      var t := Lower(libelle.value.s);
      && (r == Ok(TerrasseOuverte) <==> OccursIn("terrasse ouverte", t))
      && (r == Ok(TerrasseFermee) <==> !OccursIn("terrasse ouverte", t) && OccursIn("terrasse fermee", t))
      && (r == Ok(Etalage) <==>
            !OccursIn("terrasse ouverte", t) && !OccursIn("terrasse fermee", t) && OccursIn("etalage", t))
      && (r == Ok(Commerce) <==>
            !OccursIn("terrasse ouverte", t) && !OccursIn("terrasse fermee", t) && !OccursIn("etalage", t)
            && OccursIn("commerce", t))
      && (r == Ok(Default) <==>
            !OccursIn("terrasse ouverte", t) && !OccursIn("terrasse fermee", t) && !OccursIn("etalage", t)
            && !OccursIn("commerce", t))
  {
    if !JsTruthy(libelle) then Ok(Default)
    else match libelle.value
      case JStr(s) =>
        var t := Lower(s);
        ContainsIsOccurrence(t, "terrasse ouverte");
        ContainsIsOccurrence(t, "terrasse fermee");
        ContainsIsOccurrence(t, "etalage");
        ContainsIsOccurrence(t, "commerce");
        if Contains(t, "terrasse ouverte") then Ok(TerrasseOuverte)
        else if Contains(t, "terrasse fermee") then Ok(TerrasseFermee)
        else if Contains(t, "etalage") then Ok(Etalage)
        else if Contains(t, "commerce") then Ok(Commerce)
        else Ok(Default)
      case _ => Err(NotAString)
  }

  /** The match ignores case: a label and its lower-cased form get the same badge. */
  lemma BadgeIgnoresCase(s: string)
    ensures BadgeOf(Some(JStr(s))) == BadgeOf(Some(JStr(Lower(s))))
  {
    LowerTwice(s);
    assert Lower(Lower(s)) == Lower(s);
    assert JsTruthy(Some(JStr(Lower(s)))) == JsTruthy(Some(JStr(s)));
  }
}
