# Sunny terraces of Paris: a Dafny model of the core logic

The application shows which café terraces of Paris are in the sun. It has
four pieces of logic, and this project models each one as pure functions
over immutable GeoJSON-like data, with proofs of what each piece promises:

* **Shadows, sunlight and ranking** (`main.js`). Each building footprint
  is projected along the sun's azimuth. Its shadow is the convex hull of the
  footprint and the projected copy, or a fallback ring when there is no hull.
  A point is in shadow when some shadow polygon contains it. The sunlit share
  of a terrace is the rounded percentage of grid samples that are not in
  shadow, with fallbacks to 100 or to a center test. The terraces listed near
  the marker are those within 100 m that get some sun, stably sorted by
  rounded distance, each with a badge chosen from its `libelle_type`.
  Modules: `Shadows`, `Sunlight`, `Ranking`, `StableSort`.
* **The basic merge** (`merge_terrasses.py`). Features without an
  `iddossier` pass through. The others are grouped by `iddossier` in order of
  first appearance. A group of two or more becomes one feature: the union of
  the shapes and the first member's properties, plus `merged_count` and
  `original_types`. Modules: `Grouping`, `Merge`.
* **The enhanced merge** (`merge_terrasses_enhanced.py`). Display stalls
  (`ETALAGE`) are dropped and merged groups sum their `st_area(shape)`.
  Every grouped output is named (`nom_enseigne`) from a second collection.
  The name comes from an exact match on the standardized address, or else
  the closest address by an alphanumeric substring score, or else it is
  "Non identifié". Modules: `Address`, `Text`, `MergeEnhanced`.
* **Reprojection** (`reproject.js`). The Lambert 93 to WGS84 point
  projection is mapped over every position, at the depth each geometry type
  nests them. A truthy `crs` is relabelled CRS84; a falsy one (`null`, `false`, `0`, `""`) is kept. Module: `Reproject`.

The foreign libraries are parameters, so every property holds whatever the
libraries compute:

* turf (`TurfLib.Turf`): hull, destination, point-in-polygon, grid,
  centroid, center, distance and cleanCoords.
* The sun's trigonometry (`Shadows.SunMath`).
* shapely (`ShapelyLib.Shapely`): `shape` and `unary_union`/`mapping`.
* Python's `float()` on strings.
* The proj4 projection (`Reproject.Projection`).

Exceptions become `Result` errors that propagate, as the source's first
exception does. Loops over features are prefix or front recursions with
first-error semantics.

Shared definitions live in `Wrappers` (Option, Result), `JsonValue` (JSON
values, JavaScript and Python truthiness), `GeoJson` (the geometry types of
section 3.1 of RFC 7946), `Seqs` (filter, distinct, reverse) and `Counting` (counting the
elements a fallible test rejects).

## Model

| member | source | states |
|---|---|---|
| Shadows.NormaliseBuilding | main.js:49-56 | A building keeps its geometry; `height` is `Number(height)`; `min_height` is `Number(min_height)` unless that is NaN, and 0 when absent |
| Shadows.Exterior | main.js:191-194 | The exterior is the first ring of a Polygon, or the first ring of the first polygon of a MultiPolygon; it exists exactly when that ring does, and other geometry types have none |
| Shadows.Project | main.js:196-199 | The projection exists iff turf's `destination` succeeds on every vertex (it throws on invalid coordinates); then it has the exterior's length and is pointwise the destination of each vertex at the shadow length and bearing |
| Shadows.FallbackRingShape | main.js:205-207 | The fallback ring has 2n+1 positions: the exterior, then the projection reversed, then the first vertex again; it is a valid linear ring exactly when n >= 2 |
| Shadows.ShadowOutline | main.js:191-207 | One building's outline is the hull when turf returns one, else the fallback ring; it fails exactly when there is no exterior ring (NoExteriorRing), a `destination` call throws (DestinationFailed), or there is no hull and the fallback ring is rejected |
| Shadows.ShadowOf | main.js:190-209 | A building's shadow is the cleaned polygon of its outline, with no properties; it exists exactly when the outline does and `cleanCoords` does not throw (CleanFailed), and an outline error propagates unchanged |
| Shadows.ShadowsOf | main.js:190-210 | One shadow per building, in building order; the map fails exactly when some building's shadow fails, with that building's error |
| Shadows.ComputeProjectedShadows | main.js:185-214 | With the sun at or below the horizon the result is the empty collection whatever the buildings; otherwise it is a collection with exactly one shadow per building, in order |
| Shadows.ShadowsHaveGeometry | main.js:190-213 | Every projected shadow has a geometry |
| Sunlight.PointInPolygon | main.js:269-270 | turf's point-in-polygon on one geometry: a GeometryCollection, or a MultiPoint or LineString with positions, throws (their coordinates cannot be read as rings); an empty MultiPoint or LineString answers false; on a Polygon or MultiPolygon it answers exactly what the library answers, and throws exactly when the library throws |
| Sunlight.Examine | main.js:269-270 | One feature of the collection: a null geometry throws; otherwise the answer is turf's point-in-polygon on its geometry |
| Sunlight.AnyContainsSpec | main.js:269-270 | The short-circuit search is true exactly when some feature contains the point and every feature before it misses; false exactly when every feature misses; it throws exactly when some feature's test throws (a null geometry, a geometry turf cannot read as rings, or the library throwing) and every feature before it misses |
| Sunlight.AnyContainsTrue | main.js:269-270 | The search answers true iff some feature is a hit with only misses before it |
| Sunlight.AnyContainsFalse | main.js:269-270 | The search answers false iff every feature is a miss |
| Sunlight.AnyContainsErr | main.js:269-270 | The search throws iff some feature's test throws with only misses before it |
| Sunlight.IsPointInShadow | main.js:263-289 | A collection with geometries: when no feature's test throws, in shadow iff some feature contains the point, and a true answer always has a containing feature. A single feature or a bare geometry: it throws iff its geometry is null or it is a Polygon or MultiPolygon on which the library throws; in shadow iff it is a Polygon or MultiPolygon the library says contains the point. Any other shape: not in shadow |
| Sunlight.NothingInEmptyShadow | main.js:269-270 | No point is in the shadow of the empty collection |
| Sunlight.CountSunny | main.js:580-589 | The sunny count is at most the sample count, 0 iff every sample is in shadow, the full count iff none is; it fails iff some query fails |
| Counting.CountFalse | main.js:584-589 | Counting the samples a fallible test rejects: it fails iff some test fails; the count is at most the length, 0 iff every test accepts and the length iff every test rejects |
| Counting.CountFalseCounts | main.js:580-589 | The count is the size of the set of positions whose test answers false |
| Counting.CountFalseAppend | main.js:584-589 | Counting over a concatenation adds the two counts |
| Sunlight.CountSunnyAppend | main.js:584-589 | Counting over two runs of samples one after the other adds the two counts |
| Sunlight.CountSunnyCounts | main.js:580-589 | The count is exactly the number of sample positions whose query answers "not in shadow" |
| Sunlight.RoundedPercent | main.js:592 | The rounded percentage lies in [0, 100], is within one half of 100·sunny/total with halves rounded up, and is 0 or 100 at the extremes |
| Sunlight.ComputeSunPercentage | main.js:552-598 | The sunlit share is always in [0, 100], and is 100 for a terrace without geometry and whenever the computation throws |
| Sunlight.SampledPercentage | main.js:580-593 | With at least one sample and every query answered, the result is round(100·sunny/total), with sunny the number of samples not in shadow; it is 0 if every sample is shadowed and 100 if none is |
| Sunlight.CenterFallback | main.js:573-578 | With no sample inside the terrace the result is 0 or 100: 0 exactly when the center exists and is in shadow |
| Sunlight.NoShadowFullSun | main.js:552-598 | Against the empty shadow collection, every terrace is 100% sunlit |
| Ranking.Round | main.js:435 | `Math.round` gives the integer n with n - 1/2 <= x < n + 1/2 |
| Ranking.Anchor | main.js:400-417 | The distance is measured from the centroid; when the centroid throws, from the first vertex of a Polygon's first ring; any other terrace is skipped, and a null geometry throws |
| Ranking.Annotate | main.js:431-438 | A listed terrace keeps its geometry and properties, with `distance` and `sunPercentage` added |
| Ranking.Candidate | main.js:399-440 | A terrace is listed iff it has an anchor within 100 m and a positive sun percentage; the entry carries the rounded distance and that percentage |
| Ranking.Candidates | main.js:399-441 | The loop fails iff some terrace's step throws, and lists at most one entry per terrace |
| Ranking.CandidatesSpec | main.js:397-441 | The candidates are exactly the entries the terraces contribute: each is within the radius with some sun and comes from a terrace, and every contribution is present |
| Ranking.CandidatesAreSomes | main.js:399-441 | The candidate list is the per-terrace outcomes with the skipped terraces dropped |
| Ranking.CandidatesInOrder | main.js:399-441 | There is a strictly increasing list of terrace indices, one per candidate, such that candidate `k` is the contribution of terrace `ix[k]` and every contributing terrace is listed: the `forEach` pushes in terrace order, once each |
| Ranking.UpdateSunnyTerraces | main.js:384-448 | A non-collection source gives the empty list; otherwise the list is sorted by rounded distance, is a permutation of the candidates, and keeps the candidates' order among equal distances (a stable sort) |
| Ranking.ListedIffQualifies | main.js:420-441 | Every listed entry is well formed and comes from some terrace, and every terrace that qualifies is listed |
| Ranking.SunDownListsAllNearby | main.js:425-439 | Without shadows, every terrace with an anchor within the radius is listed with 100% sun |
| Ranking.BadgeOf | main.js:475-484 | The badge is the first of "terrasse ouverte", "terrasse fermee", "etalage", "commerce" found in the lower-cased label, else the default; a falsy label gets the default and a truthy non-string throws |
| Ranking.BadgeIgnoresCase | main.js:476-477 | A label and its lower-cased form get the same badge |
| StableSort.SortIsStable | main.js:444 | The sort is ordered by key, a permutation of its input, and keeps the input order among elements of equal key |
| Text.ContainsIsOccurrence | main.js:478-483 | The substring search is true exactly when the pattern occurs at some index |
| Text.ReplaceAll | merge_terrasses_enhanced.py:152-153 | `str.replace`, leftmost non-overlapping occurrences scanned left to right: a string starting with the pattern starts with the replacement, and the result is no longer (no shorter) than the input when the replacement is no longer (no shorter) than the pattern |
| Text.IsSpace | merge_terrasses_enhanced.py:137 | `str.isspace` as `strip()` uses it: the ASCII controls 0x09-0x0D and 0x1C-0x1F, space, 0x85, 0xA0 and the Unicode space separators |
| Text.IsAlnum | merge_terrasses_enhanced.py:163-169 | `str.isalnum` on ASCII and Latin-1 (digits, letters, superscripts, fractions, ordinals, `µ`) plus `Ÿ` and `Μ`; no alphanumeric character is whitespace |
| Text.UpperChar | merge_terrasses_enhanced.py:137 | `str.upper` on one character, the one-to-one ASCII and Latin-1 mapping with `ÿ` → `Ÿ` and `µ` → `Μ`: only alphanumeric characters change, and both alphanumeric and whitespace status are kept |
| Text.Upper | merge_terrasses_enhanced.py:137 | Upper-casing keeps the length, gives an upper-cased string, and leaves a string unchanged exactly when it is already upper-cased |
| Text.LowerChar | main.js:477 | `toLowerCase` on one character, ASCII and Latin-1: upper-casing the result gives the upper case of the input, a changed character comes back under upper-casing, and alphanumeric status is kept |
| Text.Lower | main.js:477 | Lower-casing keeps the length and agrees with the input once both are upper-cased |
| Text.Strip | merge_terrasses_enhanced.py:137 | `strip()` gives a slice of the input whose two ends are not whitespace, having removed only whitespace on either side |
| Text.ReplaceRemoves | merge_terrasses_enhanced.py:152-153 | After `replace(pat, rep)`, when `rep` cannot recreate `pat`, no occurrence of `pat` remains |
| Text.ReplaceBySelf | merge_terrasses_enhanced.py:145-149 | Replacing a pattern by itself leaves the string unchanged |
| Text.KeepAlnum | merge_terrasses_enhanced.py:163 | The simplified string is no longer than the input and holds only alphanumeric characters |
| Text.KeepAlnumSpec | merge_terrasses_enhanced.py:163 | A character is in the simplified string iff it is an alphanumeric character of the input, and an all-alphanumeric string is kept as is |
| Text.KeepAlnumAppend | merge_terrasses_enhanced.py:163 | Filtering a concatenation is the concatenation of the filtered parts, so the filter keeps the input order |
| Address.Standardize | merge_terrasses_enhanced.py:134-155 | The standardized address is empty for an empty input, upper-cased, stripped, and holds no `SAINT` |
| Address.TableIsEffective | merge_terrasses_enhanced.py:140-153 | The nine-rule table in its order has the effect of BOULEVARD→BD, AVENUE→AV, SAINT→ST alone: the identity rules change nothing, and `SAINTE` is already gone when its rule runs |
| Address.SaintGone | merge_terrasses_enhanced.py:143-144 | After the SAINT rule, neither `SAINT` nor `SAINTE` occurs |
| Address.IdentityRulesKeep | merge_terrasses_enhanced.py:145-149 | Rules that replace a text by itself leave every string unchanged |
| Address.EffectiveShape | merge_terrasses_enhanced.py:137-155 | The rewrites keep an upper-cased, stripped address upper-cased and stripped, and leave no `SAINT` |
| Address.StandardizeAddress | merge_terrasses_enhanced.py:127-137 | A falsy value standardizes to the empty string, a string to its standardized form, and a truthy non-string throws |
| Address.Score | merge_terrasses_enhanced.py:174 | The score lies in [0, 1], is the shorter length over the longer one when either string is non-empty, and is 1 exactly when the lengths are equal and non-zero |
| Address.FindClosest | merge_terrasses_enhanced.py:157-183 | A returned address is one of the known addresses |
| Address.ScanFails | merge_terrasses_enhanced.py:168-178 | The scan fails exactly when both simplified strings are empty for some address, the score's division by zero |
| Address.ScanBest | merge_terrasses_enhanced.py:165-178 | A successful scan keeps the first address with the highest score, or none when nothing scores above zero |
| Address.FindClosestSpec | merge_terrasses_enhanced.py:157-183 | The search fails exactly on a division by zero; a returned address scores above 0.6, at least as high as every address and higher than every earlier one; `None` exactly when no address scores above 0.6 |
| Address.NoAddressNoMatch | merge_terrasses_enhanced.py:165-183 | With no known address nothing matches |
| Grouping.AddToSpec | merge_terrasses.py:41-44 | Adding a feature appends it to its id's group, or opens a new group at the end for a new id; the id list grows only by a new id, other groups are unchanged, and the member count grows by one |
| Grouping.PassthroughSpec | merge_terrasses.py:35-39 | The passthrough features are exactly those without an id, in input order |
| Grouping.GroupIdsSpec | merge_terrasses.py:41-47 | There is one group per distinct id, in order of first appearance |
| Grouping.GroupMembersSpec | merge_terrasses.py:41-44 | Each group holds exactly the features with its id, in input order |
| Grouping.PartitionCount | merge_terrasses.py:33-44 | Every input feature ends up in exactly one place: passthrough plus group members equal the input count |
| Grouping.GroupsNonEmpty | merge_terrasses.py:41-44 | Every group is non-empty and all its members carry its id |
| Merge.OriginalTypes | merge_terrasses.py:67-69 | The original types hold each member label exactly once and nothing else; an unhashable label throws |
| Merge.Shapes | merge_terrasses.py:54-57 | The shapes are the members' shapes in order; the first failure throws |
| Merge.MergedProperties | merge_terrasses.py:62-69 | The merged properties are the first member's with `merged_count` and `original_types` set and every other key unchanged |
| Merge.MergeGroup | merge_terrasses.py:47-72 | A singleton group is its feature unchanged; a larger group is the union of the shapes with the merged properties, and succeeds iff shapes, union and labels do |
| Merge.MergeGroups | merge_terrasses.py:47-72 | One output per group, in order; fails iff some group fails |
| Merge.MergeTerrasses | merge_terrasses.py:20-78 | A non-collection input raises; the output is named "Geojson unifié", keeps the input's `crs` (null when absent), and the count returned is the number of features written |
| Merge.MergeLayout | merge_terrasses.py:33-72 | The output is the passthrough features followed by the merged groups |
| Merge.MergeSpec | merge_terrasses.py:33-78 | The output is the features without an id, unchanged and in order, then one output per distinct id in first-seen order, each the single feature or the merge of all features with that id; the count is their sum |
| Merge.EveryFeatureUsedOnce | merge_terrasses.py:33-47 | No feature is dropped: passthrough plus group members equal the input count, and every grouped feature is in its id's group |
| MergeEnhanced.Entry | merge_terrasses_enhanced.py:31-37 | A feature of the second collection contributes an entry only with both an address and a name, both truthy |
| MergeEnhanced.Entries | merge_terrasses_enhanced.py:31-37 | The entries are the features' entries in order; the first failure throws |
| MergeEnhanced.BuildLookup | merge_terrasses_enhanced.py:30-38 | The lookup succeeds iff every entry does, and then lists its keys once each with only truthy names |
| MergeEnhanced.LookupSpec | merge_terrasses_enhanced.py:30-38 | The lookup holds exactly the keys of the entries, and each key maps to the name of the last entry with that key |
| MergeEnhanced.FillValid | merge_terrasses_enhanced.py:35-38 | Filling the dictionary with truthy names keeps the key list duplicate-free and matching the domain |
| MergeEnhanced.FillKeys | merge_terrasses_enhanced.py:38 | A key is in the dictionary iff some entry carries it |
| MergeEnhanced.FillLastWins | merge_terrasses_enhanced.py:38 | Each key maps to the name of the last entry carrying it |
| MergeEnhanced.NameFor | merge_terrasses_enhanced.py:101-116 | The name is always truthy: "Non identifié" without a truthy `lieu1`; the exact match when the standardized address is known; else the closest address's name, or "Non identifié" when there is none; a non-string `lieu1` or a division by zero throws |
| MergeEnhanced.ExactNameWins | merge_terrasses_enhanced.py:104-107 | When some entry has the standardized `lieu1` as its address, the name is that of the last such entry |
| MergeEnhanced.NameByAddress | merge_terrasses_enhanced.py:102 | The name depends on the properties only through `lieu1` |
| MergeEnhanced.Float | merge_terrasses_enhanced.py:84 | `float()` of a number is the number; of a list, a dictionary or null it throws |
| MergeEnhanced.AreaOf | merge_terrasses_enhanced.py:82-84 | A falsy or absent area adds nothing |
| MergeEnhanced.Accumulate | merge_terrasses_enhanced.py:74-84 | The loop succeeds iff every member's shape and area do, collecting the shapes in order |
| MergeEnhanced.AccumulateShapes | merge_terrasses_enhanced.py:77-79 | The loop collects the same shapes as the basic merge |
| MergeEnhanced.TotalIsSum | merge_terrasses_enhanced.py:75-84 | When every area is a number or falsy, the total is the sum of the truthy areas |
| MergeEnhanced.MergeMany | merge_terrasses_enhanced.py:73-99 | A group of two or more becomes the union of the shapes with the first member's properties, the summed area, the count and the distinct labels; it succeeds iff the loop and the labels do |
| MergeEnhanced.EnrichGroup | merge_terrasses_enhanced.py:69-116 | A single feature is enriched exactly when its name can be found; a larger group exactly when its merge succeeds and the name of its first member's address can be found |
| MergeEnhanced.EnrichGroupSpec | merge_terrasses_enhanced.py:69-116 | A group's output is its single feature or the merge, with `nom_enseigne` set to the name for the first member's `lieu1` |
| MergeEnhanced.MergedKeepsAddress | merge_terrasses_enhanced.py:89-102 | A merged feature keeps the first member's `lieu1`, so it is named as the first member would be |
| MergeEnhanced.NamedFacts | merge_terrasses_enhanced.py:89-116 | A group output carries its name and the first member's other properties; a merge also carries the labels and the count |
| MergeEnhanced.EnrichGroups | merge_terrasses_enhanced.py:68-119 | The loop succeeds exactly when every group does, and then yields one output per group, in order, each that group's enriched output |
| MergeEnhanced.MergeTerrassesEnhanced | merge_terrasses_enhanced.py:25-125 | Either input not a collection raises; a failing lookup raises its error; the output is named "Geojson unifié avec noms d'enseignes", keeps the `crs`, and the count returned is the number written |
| MergeEnhanced.EnhancedLayout | merge_terrasses_enhanced.py:48-119 | The output is the passthrough features of the non-stall input, then the enriched groups |
| MergeEnhanced.EnhancedSpec | merge_terrasses_enhanced.py:48-125 | The output is the non-stall features without an id, unchanged, then one output per distinct id of the non-stall features in first-seen order, each named from the lookup; the count is their sum |
| MergeEnhanced.KeepsLabel | merge_terrasses_enhanced.py:89 | A group output keeps the first member's label |
| MergeEnhanced.NoEtalageInOutput | merge_terrasses_enhanced.py:50-99 | No output is labelled `ETALAGE`, and no merged output lists `ETALAGE` among its original types |
| Reproject.Project | reproject.js:32 | A projected position is the projection of its first two components, with nothing else |
| Reproject.MapPoints | reproject.js:34 | The mapped positions keep their count and are pointwise the projections |
| Reproject.MapRings | reproject.js:36-38 | The mapped rings keep their count and each ring is mapped pointwise |
| Reproject.MapPolygons | reproject.js:40-44 | The mapped polygons keep their count and each polygon's rings are mapped |
| Reproject.TransformCoords | reproject.js:30-47 | A geometry keeps its type and its counts at every nesting level, and every position becomes the projection of the position at the same place; a GeometryCollection is returned unchanged |
| Reproject.TransformUnique | reproject.js:30-47 | Any geometry with that shape whose positions are those projections is the transformed geometry |
| Reproject.TransformTwice | reproject.js:30-47 | Transforming with one projection and then another is transforming with their composition |
| Reproject.TransformRoundTrip | reproject.js:30-47 | Transforming and then transforming with an inverse projection gives back a geometry whose positions have two components |
| Reproject.ReprojectFeature | reproject.js:51-56 | A feature keeps its properties and gets its geometry transformed; a null geometry throws |
| Reproject.ReprojectFeatures | reproject.js:50-56 | The collection fails iff some geometry is null; otherwise every feature is reprojected in order |
| Reproject.ReprojectGeoJson | reproject.js:25-75 | A collection or single feature fails iff a geometry is null; a single feature keeps its properties and gets the reprojected geometry of the same shape; a bare geometry is untouched; a truthy `crs` becomes CRS84 and a falsy one is kept |
| Reproject.CollectionPreserved | reproject.js:50-56 | A reprojected collection keeps its feature count, each feature's properties and each geometry's type and shape, and maps every position |
| Reproject.ReprojectTwice | reproject.js:25-75 | Reprojecting twice is reprojecting once with the composed projection, `crs` included |
| Reproject.ReprojectRoundTrip | reproject.js:25-75 | Reprojecting and then reprojecting with the inverse gives back the collection or feature when positions have two components |

## Left out

- Map construction, layers, styles, event wiring, the DOM list and popups, the marker popup and the terrace fetch in `main.js`, and the whole of `authorizations.js`: user interface and I/O.
- File reading and writing, JSON dumping and the `__main__` blocks of both merge scripts: I/O. Each merge returns its output collection and the count.
- Sunlight.PointInPolygon: on a Point or a MultiLineString turf's answer depends on the release (a Point throws in version 6 and answers false in version 7), so the model leaves it to the library parameter; the early `false` turf gives when a feature carries a `bbox` member that excludes the point is not modelled, since features carry no `bbox` here.
- Sunlight.AnyContainsSpec: the shadow features the application builds are always polygons; for other shapes the search follows `Sunlight.PointInPolygon`, with the same release-dependent cases left to the library parameter.
- Sunlight.IsPointInShadow: in the collection branch, the release-dependent cases of `Sunlight.PointInPolygon` are left to the library parameter.
- The internals of turf, SunCalc, shapely and proj4 are not modelled: they are foreign numeric libraries. They are parameters, so the shadow geometry, the hull, the point-in-polygon test, the union and the projection maths are unconstrained.
- Floating point: `height / tan(altitude)` and the radians-to-degrees conversion are parameters. Distances, areas and percentages are exact reals or integers; `Math.round(p / t * 100)` is computed exactly, so float rounding at exact halves is not modelled.
- Unicode: upper and lower casing, `isalnum` and `isspace` are modelled for ASCII and Latin-1, one character to one character, including the two Latin-1 letters whose upper case lies outside it (`ÿ` → `Ÿ`, `µ` → `Μ`). Other scripts and multi-character case mappings (`ß` → `SS`) are not modelled.
- Python set order: `list(set(labels))` is modelled in order of first appearance. The properties state only its contents and that it has no duplicates, which is all the source fixes.
- Python dictionary keys: `True == 1` and `1 == 1.0` share a key in Python; the model keys by JSON value, so an `iddossier` of `true` and one of `1` form two groups. Lists and dictionaries as keys raise, as in Python.
- Features are assumed to have a `properties` object; the source raises on a feature without one (a `KeyError` or `AttributeError`), which the model does not represent.
- Malformed coordinate arrays (positions with fewer than two numbers, `coordinates` of the wrong depth) cannot be represented: a geometry's type fixes its nesting. A footprint whose exterior ring does not exist (a Polygon without rings, or a type other than Polygon and MultiPolygon) is modelled as an error, where the source throws on `exterior.map`.
- Reproject.TransformCoords: a GeometryCollection keeps its members unprojected, as the source returns its (absent) coordinates unchanged; the source then sets an undefined `coordinates` member, which the serialised output does not show.
- The deep copy of `reprojectGeoJSON`: every operation here is a pure function, so the input is never changed by construction.
- Shadows.NormaliseBuilding: `Number()` on a string goes through a `parse` parameter; on an array it is not modelled (NaN here; the source gives 0 for `[]` and `Number(x)` for `[x]`).
