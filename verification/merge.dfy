/** `merge_terrasses` (merge_terrasses.py): the terraces of one permit file
    (`iddossier`) become one feature whose geometry is the union of theirs and
    whose properties are the first terrace's, plus the number of terraces
    merged and their distinct labels. Features without an id pass through
    unchanged, ahead of the merged ones. Also the pieces of this bookkeeping
    that the enhanced merge shares. */
module Merge {
  import opened Wrappers
  import opened JsonValue
  import opened GeoJson
  import opened Seqs
  import opened Grouping
  import opened ShapelyLib
  import opened Address

  /** The exceptions either merge script can raise. */
  datatype MergeError =
    | NotAFeatureCollection          // ValueError on the input type check
    | UnhashableId                   // TypeError: a list or dict `iddossier` used as a key
    | ShapeFailed                    // `shape` rejected a geometry
    | UnionFailed                    // `unary_union` or `mapping` raised
    | UnhashableLabel                // TypeError: a list or dict label put in a set
    | AreaNotANumber                 // `float()` rejected an `st_area(shape)` value
    | AddressFailed(error: AddressError)

  /** The output collection: its name, the input's `crs` (`null` when
      absent), and the features. */
  datatype Output = Output(name: string, crs: Json, features: seq<Feature>)

  const OutputName: string := "Geojson unifié"

  /** `f['properties'].get('libelle_type', '')` */
  function Label(f: Feature): Json {
    Get(f.properties, "libelle_type", JStr(""))
  }

  function Labels(fs: seq<Feature>): (r: seq<Json>)
    ensures |r| == |fs|
    ensures forall i :: 0 <= i < |fs| ==> r[i] == Label(fs[i])
    decreases |fs|
  {
    if |fs| == 0 then [] else [Label(fs[0])] + Labels(fs[1..])
  }

  /** `list(set(labels))`, listed in order of first appearance; raises when
      a label cannot be hashed. */
  function OriginalTypes(fs: seq<Feature>): (r: Result<seq<Json>, MergeError>)
    ensures r.Err? <==> exists i :: 0 <= i < |fs| && !Hashable(Label(fs[i]))
    ensures r.Ok? ==> NoDuplicates(r.value)
    ensures r.Ok? ==> forall v :: v in r.value <==> exists i :: 0 <= i < |fs| && Label(fs[i]) == v
  {
    var labels := Labels(fs);
    if exists i :: 0 <= i < |fs| && !Hashable(labels[i]) then Err(UnhashableLabel)
    else
      assert forall v :: v in labels <==> exists i :: 0 <= i < |fs| && Label(fs[i]) == v by {
        forall v | v in labels
          ensures exists i :: 0 <= i < |fs| && Label(fs[i]) == v
        {
          var i :| 0 <= i < |labels| && labels[i] == v;
        }
      }
      Ok(Distinct(labels))
  }

  /** The shapes of the features, in order; the first failure raises. */
  function Shapes(fs: seq<Feature>, lib: Shapely): (r: Result<seq<Geometry>, MergeError>)
    ensures r.Ok? <==> forall i :: 0 <= i < |fs| ==> lib.shape(fs[i].geometry).Some?
    ensures r.Ok? ==> |r.value| == |fs| && forall i :: 0 <= i < |fs| ==> r.value[i] == lib.shape(fs[i].geometry).value
    decreases |fs|
  {
    if |fs| == 0 then Ok([])
    else
      var g :- lib.shape(fs[0].geometry).ToResult(ShapeFailed);
      var rest :- Shapes(fs[1..], lib);
      assert forall i :: 1 <= i < |fs| ==> fs[i] == fs[1..][i - 1];
      Ok([g] + rest)
  }

  /** The properties of a merged feature: the first member's, with the
      member count and the distinct labels. */
  function MergedProperties(first: Properties, count: nat, types: seq<Json>): (p: Properties)
    ensures p.Keys == first.Keys + {"merged_count", "original_types"}
    ensures p["merged_count"] == JNum(count as real)
    ensures p["original_types"] == JArr(types)
    ensures forall k :: k in first && k != "merged_count" && k != "original_types" ==> p[k] == first[k]
  {
    first["merged_count" := JNum(count as real)]["original_types" := JArr(types)]
  }

  /** What a group of two or more becomes: the union of the members' shapes,
      with the first member's properties plus `merged_count` and
      `original_types`. */
  ghost predicate MergedFrom(out: Feature, members: seq<Feature>, lib: Shapely)
    requires |members| > 0
  {
    && Shapes(members, lib).Ok?
    && out.geometry.Some?
    && lib.unaryUnion(Shapes(members, lib).value) == out.geometry
    && OriginalTypes(members).Ok?
    && out.properties == MergedProperties(members[0].properties, |members|, OriginalTypes(members).value)
  }

  /** One group of `merge_terrasses`: a singleton is kept as it is; a larger
      group is merged. */
  function MergeGroup(g: Group, lib: Shapely): (r: Result<Feature, MergeError>)
    requires |g.members| > 0
    ensures |g.members| == 1 ==> r == Ok(g.members[0])
    ensures |g.members| > 1 && r.Ok? ==> MergedFrom(r.value, g.members, lib)
    ensures |g.members| > 1 ==>
      (r.Ok? <==> Shapes(g.members, lib).Ok? && lib.unaryUnion(Shapes(g.members, lib).value).Some?
                  && OriginalTypes(g.members).Ok?)
  {
    if |g.members| == 1 then Ok(g.members[0])
    else
      var shapes :- Shapes(g.members, lib);
      var union :- lib.unaryUnion(shapes).ToResult(UnionFailed);
      var types :- OriginalTypes(g.members);
      Ok(Feature(Some(union), MergedProperties(g.members[0].properties, |g.members|, types)))
  }

  /** Every group is non-empty. */
  predicate NonEmptyGroups(groups: seq<Group>) {
    forall i :: 0 <= i < |groups| ==> |groups[i].members| > 0
  }

  /** The second loop of `merge_terrasses`, one output per group, in order. */
  function MergeGroups(groups: seq<Group>, lib: Shapely): (r: Result<seq<Feature>, MergeError>)
    requires NonEmptyGroups(groups)
    ensures r.Ok? <==> forall i :: 0 <= i < |groups| ==> MergeGroup(groups[i], lib).Ok?
    ensures r.Ok? ==> |r.value| == |groups| && forall i :: 0 <= i < |groups| ==> r.value[i] == MergeGroup(groups[i], lib).value
    decreases |groups|
  {
    if |groups| == 0 then Ok([])
    else
      var first :- MergeGroup(groups[0], lib);
      var rest :- MergeGroups(groups[1..], lib);
      assert forall i :: 1 <= i < |groups| ==> groups[i] == groups[1..][i - 1];
      Ok([first] + rest)
  }

  /** `merge_terrasses` without the file I/O: the output collection and the
      number of features written. */
  function MergeTerrasses(doc: Document, lib: Shapely): (r: Result<(Output, nat), MergeError>)
    ensures !doc.body.FeatureCollection? ==> r == Err(NotAFeatureCollection)
    ensures r.Ok? ==> r.value.1 == |r.value.0.features|
    ensures r.Ok? ==> r.value.0.name == OutputName && r.value.0.crs == doc.crs.GetOr(JNull)
  {
    if !doc.body.FeatureCollection? then Err(NotAFeatureCollection)
    else
      var fs := doc.body.features;
      if !IdsHashable(fs) then Err(UnhashableId)
      else
        var p := PartitionOf(fs);
        GroupsNonEmpty(fs);
        var merged :- MergeGroups(p.groups, lib);
        var out := p.passthrough + merged;
        Ok((Output(OutputName, doc.crs.GetOr(JNull), out), |out|))
  }

  /** A successful run writes the passthrough features, then the merged
      groups. */
  lemma MergeLayout(doc: Document, lib: Shapely)
    requires MergeTerrasses(doc, lib).Ok?
    ensures var p := PartitionOf(doc.body.features);
      && doc.body.FeatureCollection?
      && NonEmptyGroups(p.groups)
      && MergeGroups(p.groups, lib).Ok?
      && MergeTerrasses(doc, lib).value.0.features == p.passthrough + MergeGroups(p.groups, lib).value
  {
    GroupsNonEmpty(doc.body.features);
  }

  /** What the group of `members` becomes: its only feature, or their merge. */
  ghost predicate GroupOutput(out: Feature, members: seq<Feature>, lib: Shapely) {
    && |members| > 0
    && (|members| == 1 ==> out == members[0])
    && (|members| > 1 ==> MergedFrom(out, members, lib))
  }

  /** The layout of the output of `merge_terrasses`: the features without an
      id first, unchanged and in input order; then one feature per distinct
      id, in order of first appearance, each the single feature of its id or
      the merge of all of them. */
  ghost predicate LaidOut(out: seq<Feature>, fs: seq<Feature>, lib: Shapely) {
    var pt := Filter(fs, IsPassthrough);
    var ids := Distinct(GroupedIds(fs));
    && |out| == |pt| + |ids|
    && out[..|pt|] == pt
    && (forall i :: 0 <= i < |ids| ==> GroupOutput(out[|pt| + i], WithId(fs, ids[i]), lib))
  }

  /** A successful `merge_terrasses` writes the passthrough features, then
      one feature per distinct id; the count is the passthrough count plus the
      number of distinct ids. */
  lemma MergeSpec(doc: Document, lib: Shapely)
    requires MergeTerrasses(doc, lib).Ok?
    ensures var fs := doc.body.features;
      && MergeTerrasses(doc, lib).value.1 == |Filter(fs, IsPassthrough)| + |Distinct(GroupedIds(fs))|
      && LaidOut(MergeTerrasses(doc, lib).value.0.features, fs, lib)
  {
    MergeLayout(doc, lib);
    MergedOutputSpec(doc.body.features, lib, MergeTerrasses(doc, lib).value.0.features);
  }

  /** The same layout, stated for the passthrough features followed by the
      merged groups of `fs`. */
  lemma MergedOutputSpec(fs: seq<Feature>, lib: Shapely, out: seq<Feature>)
    requires NonEmptyGroups(PartitionOf(fs).groups)
    requires MergeGroups(PartitionOf(fs).groups, lib).Ok?
    requires out == PartitionOf(fs).passthrough + MergeGroups(PartitionOf(fs).groups, lib).value
    ensures LaidOut(out, fs, lib)
  {
    var p := PartitionOf(fs);
    PassthroughSpec(fs);
    GroupIdsSpec(fs);
    GroupMembersSpec(fs);
    IdsIndex(p.groups);
    var merged := MergeGroups(p.groups, lib).value;
    forall i | 0 <= i < |p.groups|
      ensures GroupOutput(out[|p.passthrough| + i], WithId(fs, Distinct(GroupedIds(fs))[i]), lib)
    {
      assert out[|p.passthrough| + i] == merged[i];
      MergedGroupOutput(p.groups[i], lib);
      assert p.groups[i].members == WithId(fs, p.groups[i].id);
    }
  }

  /** A group that merges successfully becomes its group output. */
  lemma MergedGroupOutput(g: Group, lib: Shapely)
    requires |g.members| > 0 && MergeGroup(g, lib).Ok?
    ensures GroupOutput(MergeGroup(g, lib).value, g.members, lib)
  {
  }

  /** Every input feature is either passed through or in exactly one group. */
  lemma EveryFeatureUsedOnce(fs: seq<Feature>)
    ensures |Filter(fs, IsPassthrough)| + MemberCount(PartitionOf(fs).groups) == |fs|
    ensures forall i :: 0 <= i < |fs| && IsGrouped(fs[i]) ==> fs[i] in WithId(fs, IdOf(fs[i]))
  {
    PassthroughSpec(fs);
    PartitionCount(fs);
    forall i | 0 <= i < |fs| && IsGrouped(fs[i])
      ensures fs[i] in WithId(fs, IdOf(fs[i]))
    {
      WithIdContains(fs, i);
    }
  }

  lemma {:induction false} WithIdContains(fs: seq<Feature>, i: int)
    requires 0 <= i < |fs| && IsGrouped(fs[i])
    ensures fs[i] in WithId(fs, IdOf(fs[i]))
    decreases |fs|
  {
    if i < |fs| - 1 {
      WithIdContains(fs[..|fs| - 1], i);
    }
  }
}
