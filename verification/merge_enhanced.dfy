/** `merge_terrasses_enhanced` (merge_terrasses_enhanced.py): the merge of
    merge_terrasses.py with three changes — display stalls (`ETALAGE`) are
    dropped first, a merged group's `st_area(shape)` becomes the sum of its
    members' areas, and every grouped output gets the shop name
    (`nom_enseigne`) found for its address (`lieu1`) in a second collection. */
module MergeEnhanced {
  import opened Wrappers
  import opened JsonValue
  import opened GeoJson
  import opened Seqs
  import opened Text
  import opened Grouping
  import opened ShapelyLib
  import opened Address
  import opened Merge

  const EnhancedName: string := "Geojson unifié avec noms d'enseignes"

  /** The name given when no address matches. */
  const NotIdentified: Json := JStr("Non identifié")

  const Etalage: Json := JStr("ETALAGE")

  predicate NotEtalage(f: Feature) {
    Label(f) != Etalage
  }

  // ---------------------------------------------------------------------------
  // Address to shop-name lookup

  /** `address_to_enseigne`: its keys in insertion order, and the map. */
  datatype Lookup = Lookup(keys: seq<string>, names: map<string, Json>)

  /** The keys list the map's domain once each; every name is truthy. */
  ghost predicate ValidLookup(l: Lookup) {
    && NoDuplicates(l.keys)
    && (forall k :: k in l.names <==> k in l.keys)
    && (forall k :: k in l.names ==> PyTruthy(l.names[k]))
  }

  /** The entry a feature of the second collection contributes: its
      standardized address and its shop name, when it has both and both are
      truthy. */
  function Entry(f: Feature): (r: Result<Option<(string, Json)>, MergeError>)
    ensures r.Ok? && r.value.Some? ==> PyTruthy(r.value.value.1)
  {
    var p := f.properties;
    if "adresse" in p && "nom_enseigne" in p && PyTruthy(p["adresse"]) && PyTruthy(p["nom_enseigne"]) then
      match StandardizeAddress(p["adresse"])
      case Err(e) => Err(AddressFailed(e))
      case Ok(key) => Ok(Some((key, p["nom_enseigne"])))
    else Ok(None)
  }

  /** `d[key] = value`: a new key goes last; an existing one keeps its place. */
  function Insert(l: Lookup, key: string, value: Json): Lookup {
    Lookup(if key in l.names then l.keys else l.keys + [key], l.names[key := value])
  }

  /** The entries of the second collection, in order; the first failure
      raises. */
  function Entries(fs: seq<Feature>): (r: Result<seq<Option<(string, Json)>>, MergeError>)
    ensures r.Ok? <==> forall i :: 0 <= i < |fs| ==> Entry(fs[i]).Ok?
    ensures r.Ok? ==> |r.value| == |fs| && forall i :: 0 <= i < |fs| ==> r.value[i] == Entry(fs[i]).value
  {
    MapAll(fs, Entry)
  }

  /** The dictionary the entries fill, one assignment after another. */
  function Fill(es: seq<Option<(string, Json)>>): Lookup
    decreases |es|
  {
    if |es| == 0 then Lookup([], map[])
    else
      var l := Fill(es[..|es| - 1]);
      match es[|es| - 1]
      case None => l
      case Some((key, name)) => Insert(l, key, name)
  }

  /** The first loop of the script. Computing every entry before filling the
      dictionary raises the same first error, since an entry has no effect
      but its assignment. */
  function BuildLookup(fs: seq<Feature>): (r: Result<Lookup, MergeError>)
    ensures r.Ok? <==> forall i :: 0 <= i < |fs| ==> Entry(fs[i]).Ok?
    ensures r.Ok? ==> ValidLookup(r.value)
  {
    var es :- Entries(fs);
    EntriesTruthy(fs);
    FillValid(es);
    Ok(Fill(es))
  }

  /** Every name an entry carries is truthy. */
  lemma EntriesTruthy(fs: seq<Feature>)
    requires Entries(fs).Ok?
    ensures var es := Entries(fs).value;
      forall i :: 0 <= i < |es| && es[i].Some? ==> PyTruthy(es[i].value.1)
  {
    var es := Entries(fs).value;
    forall i | 0 <= i < |es| && es[i].Some?
      ensures PyTruthy(es[i].value.1)
    {
      assert es[i] == Entry(fs[i]).value;
    }
  }

  /** Entry `i` has key `key`. */
  predicate KeyAt(es: seq<Option<(string, Json)>>, i: int, key: string)
    requires 0 <= i < |es|
  {
    es[i].Some? && es[i].value.0 == key
  }

  /** Entry `i` is the last one with key `k`. */
  ghost predicate LastAt(es: seq<Option<(string, Json)>>, k: string, i: int) {
    && 0 <= i < |es| && KeyAt(es, i, k)
    && forall j :: i < j < |es| ==> !KeyAt(es, j, k)
  }

  /** The lookup holds exactly the keys of the entries. */
  ghost predicate KeysOf(l: Lookup, es: seq<Option<(string, Json)>>) {
    forall k :: k in l.names <==> exists i :: 0 <= i < |es| && KeyAt(es, i, k)
  }

  /** Each key maps to the name of the last entry with that key. */
  ghost predicate LastWins(l: Lookup, es: seq<Option<(string, Json)>>) {
    forall k :: k in l.names ==> exists i :: LastAt(es, k, i) && l.names[k] == es[i].value.1
  }

  /** The lookup is well formed, holds exactly the keys of the entries, and
      maps each key to the name of the LAST entry with that key. */
  lemma LookupSpec(fs: seq<Feature>)
    requires BuildLookup(fs).Ok?
    ensures ValidLookup(BuildLookup(fs).value)
    ensures KeysOf(BuildLookup(fs).value, Entries(fs).value)
    ensures LastWins(BuildLookup(fs).value, Entries(fs).value)
  {
    var es := Entries(fs).value;
    assert BuildLookup(fs).value == Fill(es);
    FillKeys(es);
    FillLastWins(es);
  }

  lemma {:induction false} FillValid(es: seq<Option<(string, Json)>>)
    requires forall i :: 0 <= i < |es| && es[i].Some? ==> PyTruthy(es[i].value.1)
    ensures ValidLookup(Fill(es))
    decreases |es|
  {
    if |es| > 0 {
      var n := |es| - 1;
      FillValid(es[..n]);
      var l := Fill(es[..n]);
      if es[n].Some? {
        var key := es[n].value.0;
        assert Fill(es) == Insert(l, key, es[n].value.1);
        if key !in l.names {
          var ks := l.keys + [key];
          assert forall i :: 0 <= i < |l.keys| ==> ks[i] == l.keys[i];
        }
      }
    }
  }

  lemma {:induction false} FillKeys(es: seq<Option<(string, Json)>>)
    ensures KeysOf(Fill(es), es)
    decreases |es|
  {
    if |es| > 0 {
      var n := |es| - 1;
      var init := es[..n];
      FillKeys(init);
      var l := Fill(init);
      forall k
        ensures k in Fill(es).names <==> exists i :: 0 <= i < |es| && KeyAt(es, i, k)
      {
        if k in l.names {
          var i :| 0 <= i < n && KeyAt(init, i, k);
          assert KeyAt(es, i, k);
        }
        if KeyAt(es, n, k) {
          assert k in Fill(es).names;
        }
        if i :| 0 <= i < |es| && KeyAt(es, i, k) {
          if i < n {
            assert KeyAt(init, i, k);
          }
        }
      }
    }
  }

  lemma {:induction false} FillLastWins(es: seq<Option<(string, Json)>>)
    ensures LastWins(Fill(es), es)
    decreases |es|
  {
    if |es| > 0 {
      var n := |es| - 1;
      var init := es[..n];
      FillLastWins(init);
      var l := Fill(init);
      var l' := Fill(es);
      forall k | k in l'.names
        ensures exists i :: LastAt(es, k, i) && l'.names[k] == es[i].value.1
      {
        if KeyAt(es, n, k) {
          assert LastAt(es, k, n);
        } else {
          assert k in l.names && l'.names[k] == l.names[k];
          var i :| LastAt(init, k, i) && l.names[k] == init[i].value.1;
          LastAtExtends(es, k, i);
        }
      }
    }
  }

  /** The last entry with key `k` before the final entry stays the last one
      when the final entry has another key. */
  lemma LastAtExtends(es: seq<Option<(string, Json)>>, k: string, i: int)
    requires |es| > 0 && !KeyAt(es, |es| - 1, k)
    requires LastAt(es[..|es| - 1], k, i)
    ensures LastAt(es, k, i) && es[i] == es[..|es| - 1][i]
  {
    var init := es[..|es| - 1];
    assert init[i] == es[i];
    forall j | i < j < |es|
      ensures !KeyAt(es, j, k)
    {
      if j < |es| - 1 {
        assert init[j] == es[j] && !KeyAt(init, j, k);
      }
    }
  }

  // ---------------------------------------------------------------------------
  // Shop name of a grouped output

  /** The shop name of a grouped output, by preference: "Non identifié"
      without a truthy `lieu1`; the exact match on the standardized address
      when there is one; else the name of the closest known address, unless
      there is none or it is the empty string, in which case "Non identifié".
      A `lieu1` that is not a string, and a closest-address search that
      divides by zero, raise. */
  function NameFor(props: Properties, l: Lookup): (r: Result<Json, MergeError>)
    requires ValidLookup(l)
    ensures r.Ok? ==> PyTruthy(r.value)
    ensures var address := Get(props, "lieu1", JStr(""));
      && (!PyTruthy(address) ==> r == Ok(NotIdentified))
      && (PyTruthy(address) && !address.JStr? ==> r == Err(AddressFailed(AddressNotAString)))
      && (PyTruthy(address) && address.JStr? && Standardize(address.s) in l.names ==>
            r == Ok(l.names[Standardize(address.s)]))
    ensures var address := Get(props, "lieu1", JStr(""));
      PyTruthy(address) && address.JStr? && Standardize(address.s) !in l.names ==>
        var m := FindClosest(Standardize(address.s), l.keys);
        && (m.Err? ==> r == Err(AddressFailed(m.error)))
        && (m.Ok? && m.value.Some? && m.value.value != "" ==> r.Ok? && r.value == l.names[m.value.value])
        && (m.Ok? && (m.value.None? || m.value.value == "") ==> r == Ok(NotIdentified))
  {
    var address := Get(props, "lieu1", JStr(""));
    if !PyTruthy(address) then Ok(NotIdentified)
    else
      match StandardizeAddress(address)
      case Err(e) => Err(AddressFailed(e))
      case Ok(key) =>
        var exact := Get(l.names, key, JStr(""));
        if PyTruthy(exact) then Ok(exact)
        else
          match FindClosest(key, l.keys)
          case Err(e) => Err(AddressFailed(e))
          case Ok(m) =>
            if m.Some? && m.value != "" then Ok(l.names[m.value]) else Ok(NotIdentified)
  }

  /** When some entry of the second collection has the standardized `lieu1`
      as its address, the shop name is that of the LAST such entry. */
  lemma ExactNameWins(fs: seq<Feature>, props: Properties, address: string)
    requires BuildLookup(fs).Ok?
    requires Get(props, "lieu1", JStr("")) == JStr(address) && address != ""
    requires exists i :: 0 <= i < |Entries(fs).value| && KeyAt(Entries(fs).value, i, Standardize(address))
    ensures exists i ::
      && LastAt(Entries(fs).value, Standardize(address), i)
      && NameFor(props, BuildLookup(fs).value) == Ok(Entries(fs).value[i].value.1)
  {
    var key := Standardize(address);
    var es := Entries(fs).value;
    var l := BuildLookup(fs).value;
    LookupSpec(fs);
    assert key in l.names;
    var i :| LastAt(es, key, i) && l.names[key] == es[i].value.1;
    ExactName(props, l, address);
  }

  /** A standardized `lieu1` that is a key of the lookup gives its name. */
  lemma ExactName(props: Properties, l: Lookup, address: string)
    requires ValidLookup(l)
    requires Get(props, "lieu1", JStr("")) == JStr(address) && address != ""
    requires Standardize(address) in l.names
    ensures NameFor(props, l) == Ok(l.names[Standardize(address)])
  {
  }

  // ---------------------------------------------------------------------------
  // Merging a group

  /** `float(v)` on a truthy `st_area(shape)` value. */
  function Float(v: Json, parse: string -> Option<real>): (r: Result<real, MergeError>)
    ensures v.JNum? ==> r == Ok(v.n)
    ensures v.JArr? || v.JObj? || v.JNull? ==> r == Err(AreaNotANumber)
  {
    match v
    case JNum(n) => Ok(n)
    case JBool(b) => Ok(if b then 1.0 else 0.0)
    case JStr(s) => parse(s).ToResult(AreaNotANumber)
    case _ => Err(AreaNotANumber)
  }

  /** The area a member adds to the total: nothing when falsy. */
  function AreaOf(f: Feature, parse: string -> Option<real>): (r: Result<real, MergeError>)
    ensures !PyTruthy(Get(f.properties, "st_area(shape)", JNum(0.0))) ==> r == Ok(0.0)
  {
    var v := Get(f.properties, "st_area(shape)", JNum(0.0));
    if PyTruthy(v) then Float(v, parse) else Ok(0.0)
  }

  /** The loop over a group's members: their shapes, in order, and the sum
      of their areas; the first failure raises. */
  function Accumulate(fs: seq<Feature>, lib: Shapely, parse: string -> Option<real>): (r: Result<(seq<Geometry>, real), MergeError>)
    ensures r.Ok? <==> forall i :: 0 <= i < |fs| ==> lib.shape(fs[i].geometry).Some? && AreaOf(fs[i], parse).Ok?
    ensures r.Ok? ==> |r.value.0| == |fs|
    ensures r.Ok? ==> forall i :: 0 <= i < |fs| ==> r.value.0[i] == lib.shape(fs[i].geometry).value
    decreases |fs|
  {
    if |fs| == 0 then Ok(([], 0.0))
    else
      var init := fs[..|fs| - 1];
      var last := fs[|fs| - 1];
      var acc :- Accumulate(init, lib, parse);
      var g :- lib.shape(last.geometry).ToResult(ShapeFailed);
      var a :- AreaOf(last, parse);
      assert forall i :: 0 <= i < |init| ==> init[i] == fs[i];
      Ok((acc.0 + [g], acc.1 + a))
  }

  /** The loop collects the same shapes as `merge_terrasses`. */
  lemma AccumulateShapes(fs: seq<Feature>, lib: Shapely, parse: string -> Option<real>)
    requires Accumulate(fs, lib, parse).Ok?
    ensures Shapes(fs, lib) == Ok(Accumulate(fs, lib, parse).value.0)
  {
    var shapes := Accumulate(fs, lib, parse).value.0;
    assert Shapes(fs, lib).Ok?;
    assert Shapes(fs, lib).value == shapes;
  }

  /** Sum of the member areas, first to last, when every area is a number
      or falsy. */
  function SumNumericAreas(fs: seq<Feature>): real
    decreases |fs|
  {
    if |fs| == 0 then 0.0
    else
      var v := Get(fs[0].properties, "st_area(shape)", JNum(0.0));
      (if v.JNum? then v.n else 0.0) + SumNumericAreas(fs[1..])
  }

  /** The area is a number, or falsy. */
  predicate NumericArea(f: Feature) {
    var v := Get(f.properties, "st_area(shape)", JNum(0.0));
    v.JNum? || !PyTruthy(v)
  }

  /** When every member's area is a number or falsy, the total is the plain
      sum of the numbers. */
  lemma {:induction false} TotalIsSum(fs: seq<Feature>, lib: Shapely, parse: string -> Option<real>)
    requires Accumulate(fs, lib, parse).Ok?
    requires forall i :: 0 <= i < |fs| ==> NumericArea(fs[i])
    ensures Accumulate(fs, lib, parse).value.1 == SumNumericAreas(fs)
    decreases |fs|
  {
    if |fs| > 0 {
      var init := fs[..|fs| - 1];
      TotalIsSum(init, lib, parse);
      SumAppend(init, fs[|fs| - 1]);
      assert init + [fs[|fs| - 1]] == fs;
    }
  }

  lemma {:induction false} SumAppend(fs: seq<Feature>, f: Feature)
    ensures var v := Get(f.properties, "st_area(shape)", JNum(0.0));
      SumNumericAreas(fs + [f]) == SumNumericAreas(fs) + (if v.JNum? then v.n else 0.0)
    decreases |fs|
  {
    if |fs| > 0 {
      assert (fs + [f])[1..] == fs[1..] + [f];
      SumAppend(fs[1..], f);
    } else {
      assert [f][1..] == [];
    }
  }

  /** The properties of a merged feature: the first member's, with the
      summed area, the member count and the distinct labels. */
  ghost predicate SummedFrom(out: Feature, members: seq<Feature>, lib: Shapely, parse: string -> Option<real>)
    requires |members| > 0
  {
    && Accumulate(members, lib, parse).Ok?
    && Shapes(members, lib) == Ok(Accumulate(members, lib, parse).value.0)
    && out.geometry == lib.unaryUnion(Shapes(members, lib).value)
    && OriginalTypes(members).Ok?
    && out.properties == MergedProperties(
         members[0].properties["st_area(shape)" := JNum(Accumulate(members, lib, parse).value.1)],
         |members|, OriginalTypes(members).value)
  }

  /** A group of two or more becomes one feature: the union of the shapes,
      and the first member's properties with the summed area, the count and
      the distinct labels. */
  function MergeMany(members: seq<Feature>, lib: Shapely, parse: string -> Option<real>): (r: Result<Feature, MergeError>)
    requires |members| > 0
    ensures r.Ok? ==> SummedFrom(r.value, members, lib, parse)
    ensures r.Ok? <==> Accumulate(members, lib, parse).Ok? && OriginalTypes(members).Ok?
                       && lib.unaryUnion(Accumulate(members, lib, parse).value.0).Some?
  {
    var acc :- Accumulate(members, lib, parse);
    AccumulateShapes(members, lib, parse);
    var union :- lib.unaryUnion(acc.0).ToResult(UnionFailed);
    var types :- OriginalTypes(members);
    var props := members[0].properties["st_area(shape)" := JNum(acc.1)];
    Ok(Feature(Some(union), MergedProperties(props, |members|, types)))
  }

  /** The keys the merge writes. */
  const MergeKeys: set<string> := {"st_area(shape)", "merged_count", "original_types", "nom_enseigne"}

  /** `out` has the properties of `first` except for the keys the merge
      writes. */
  ghost predicate KeepsFirst(out: Feature, first: Feature) {
    && out.properties.Keys <= first.properties.Keys + MergeKeys
    && (forall k :: k in first.properties && k !in MergeKeys ==>
          k in out.properties && out.properties[k] == first.properties[k])
  }

  /** What the group of `members` becomes once named `name`: its only
      feature, or their merge, with `nom_enseigne` set. */
  ghost predicate NamedFrom(out: Feature, members: seq<Feature>, name: Json, lib: Shapely, parse: string -> Option<real>)
    requires |members| > 0
  {
    && (|members| == 1 ==>
          out == Feature(members[0].geometry, members[0].properties["nom_enseigne" := name]))
    && (|members| > 1 ==> exists base: Feature ::
          && SummedFrom(base, members, lib, parse)
          && out == Feature(base.geometry, base.properties["nom_enseigne" := name]))
  }

  /** One group of the second loop: kept or merged, then named after the
      address of its first member. */
  function EnrichGroup(g: Group, l: Lookup, lib: Shapely, parse: string -> Option<real>): (r: Result<Feature, MergeError>)
    requires |g.members| > 0 && ValidLookup(l)
    ensures |g.members| == 1 ==> (r.Ok? <==> NameFor(g.members[0].properties, l).Ok?)
    ensures |g.members| > 1 ==> (r.Ok? ==> MergeMany(g.members, lib, parse).Ok?)
    ensures |g.members| > 1 ==>
      (r.Ok? <==> MergeMany(g.members, lib, parse).Ok? && NameFor(g.members[0].properties, l).Ok?)
  {
    if |g.members| == 1 then
      var name :- NameFor(g.members[0].properties, l);
      Ok(Feature(g.members[0].geometry, g.members[0].properties["nom_enseigne" := name]))
    else
      var base :- MergeMany(g.members, lib, parse);
      MergedKeepsAddress(base, g.members, lib, parse);
      NameByAddress(base.properties, g.members[0].properties, l);
      var name :- NameFor(base.properties, l);
      Ok(Feature(base.geometry, base.properties["nom_enseigne" := name]))
  }

  /** A group that is enriched successfully becomes its single feature or the
      merge of its members, named after the address of its first member. */
  lemma EnrichGroupSpec(g: Group, l: Lookup, lib: Shapely, parse: string -> Option<real>)
    requires |g.members| > 0 && ValidLookup(l)
    requires EnrichGroup(g, l, lib, parse).Ok?
    ensures NameFor(g.members[0].properties, l).Ok?
    ensures NamedFrom(EnrichGroup(g, l, lib, parse).value, g.members, NameFor(g.members[0].properties, l).value, lib, parse)
  {
    if |g.members| > 1 {
      var base := MergeMany(g.members, lib, parse).value;
      MergedKeepsAddress(base, g.members, lib, parse);
      NameByAddress(base.properties, g.members[0].properties, l);
      var name := NameFor(base.properties, l).value;
      assert SummedFrom(base, g.members, lib, parse);
    }
  }

  /** The name depends on the properties only through `lieu1`. */
  lemma NameByAddress(p: Properties, q: Properties, l: Lookup)
    requires ValidLookup(l)
    requires Get(p, "lieu1", JStr("")) == Get(q, "lieu1", JStr(""))
    ensures NameFor(p, l) == NameFor(q, l)
  {
  }

  /** A merged feature keeps the first member's address. */
  lemma MergedKeepsAddress(out: Feature, members: seq<Feature>, lib: Shapely, parse: string -> Option<real>)
    requires |members| > 0 && SummedFrom(out, members, lib, parse)
    ensures Get(out.properties, "lieu1", JStr("")) == Get(members[0].properties, "lieu1", JStr(""))
  {
    var first := members[0].properties["st_area(shape)" := JNum(Accumulate(members, lib, parse).value.1)];
    assert out.properties == MergedProperties(first, |members|, OriginalTypes(members).value);
    assert Get(first, "lieu1", JStr("")) == Get(members[0].properties, "lieu1", JStr(""));
  }

  /** A named group output carries its name, keeps the first member's other
      properties, and when merged lists the members' labels. */
  lemma NamedFacts(out: Feature, members: seq<Feature>, name: Json, lib: Shapely, parse: string -> Option<real>)
    requires |members| > 0 && NamedFrom(out, members, name, lib, parse)
    ensures "nom_enseigne" in out.properties && out.properties["nom_enseigne"] == name
    ensures KeepsFirst(out, members[0])
    ensures |members| > 1 ==>
      && OriginalTypes(members).Ok?
      && "original_types" in out.properties
      && out.properties["original_types"] == JArr(OriginalTypes(members).value)
      && "merged_count" in out.properties
      && out.properties["merged_count"] == JNum(|members| as real)
  {
    if |members| > 1 {
      var base :| SummedFrom(base, members, lib, parse)
        && out == Feature(base.geometry, base.properties["nom_enseigne" := name]);
    }
  }

  function EnrichGroups(groups: seq<Group>, l: Lookup, lib: Shapely, parse: string -> Option<real>): (r: Result<seq<Feature>, MergeError>)
    requires NonEmptyGroups(groups) && ValidLookup(l)
    ensures r.Ok? <==> forall i :: 0 <= i < |groups| ==> EnrichGroup(groups[i], l, lib, parse).Ok?
    ensures r.Ok? ==> |r.value| == |groups| && forall i :: 0 <= i < |groups| ==> r.value[i] == EnrichGroup(groups[i], l, lib, parse).value
  {
    MapAll(groups, (g: Group) requires |g.members| > 0 && ValidLookup(l) => EnrichGroup(g, l, lib, parse))
  }

  /** `merge_terrasses_enhanced` without the file I/O: the output
      collection and the number of features written. */
  function MergeTerrassesEnhanced(doc: Document, extra: Document, lib: Shapely, parse: string -> Option<real>): (r: Result<(Output, nat), MergeError>)
    ensures !doc.body.FeatureCollection? || !extra.body.FeatureCollection? ==> r == Err(NotAFeatureCollection)
    ensures r.Ok? ==> r.value.1 == |r.value.0.features|
    ensures r.Ok? ==> r.value.0.name == EnhancedName && r.value.0.crs == doc.crs.GetOr(JNull)
    ensures doc.body.FeatureCollection? && extra.body.FeatureCollection? && BuildLookup(extra.body.features).Err? ==>
      r == Err(BuildLookup(extra.body.features).error)
  {
    if !doc.body.FeatureCollection? || !extra.body.FeatureCollection? then Err(NotAFeatureCollection)
    else
      var l :- BuildLookup(extra.body.features);
      var kept := Filter(doc.body.features, NotEtalage);
      if !IdsHashable(kept) then Err(UnhashableId)
      else
        var p := PartitionOf(kept);
        GroupsNonEmpty(kept);
        var merged :- EnrichGroups(p.groups, l, lib, parse);
        var out := p.passthrough + merged;
        Ok((Output(EnhancedName, doc.crs.GetOr(JNull), out), |out|))
  }

  /** A successful run writes the passthrough features of the non-stall
      features, then the enriched groups. */
  lemma EnhancedLayout(doc: Document, extra: Document, lib: Shapely, parse: string -> Option<real>)
    requires MergeTerrassesEnhanced(doc, extra, lib, parse).Ok?
    ensures var kept := Filter(doc.body.features, NotEtalage);
      var p := PartitionOf(kept);
      var l := BuildLookup(extra.body.features);
      && doc.body.FeatureCollection? && extra.body.FeatureCollection?
      && l.Ok? && ValidLookup(l.value)
      && NonEmptyGroups(p.groups)
      && EnrichGroups(p.groups, l.value, lib, parse).Ok?
      && MergeTerrassesEnhanced(doc, extra, lib, parse).value.0.features == p.passthrough + EnrichGroups(p.groups, l.value, lib, parse).value
  {
    GroupsNonEmpty(Filter(doc.body.features, NotEtalage));
  }

  /** What the group of `members` becomes: its only feature or their
      merge, named after the address of its first member. */
  ghost predicate NamedGroup(out: Feature, members: seq<Feature>, l: Lookup, lib: Shapely, parse: string -> Option<real>) {
    && ValidLookup(l)
    && |members| > 0
    && NameFor(members[0].properties, l).Ok?
    && NamedFrom(out, members, NameFor(members[0].properties, l).value, lib, parse)
  }

  /** The layout of the output of `merge_terrasses_enhanced`: the
      non-stall features without an id first, unchanged and in input order;
      then one feature per distinct id among the non-stall features, in order
      of first appearance, each the single feature of its id or the merge of
      all of them, named through the lookup `l`. */
  ghost predicate EnhancedLaidOut(out: seq<Feature>, kept: seq<Feature>, l: Lookup, lib: Shapely, parse: string -> Option<real>) {
    var pt := Filter(kept, IsPassthrough);
    var ids := Distinct(GroupedIds(kept));
    && |out| == |pt| + |ids|
    && out[..|pt|] == pt
    && (forall i :: 0 <= i < |ids| ==> NamedGroup(out[|pt| + i], WithId(kept, ids[i]), l, lib, parse))
  }

  /** A successful `merge_terrasses_enhanced` drops the stalls, then writes
      the passthrough features and one named feature per distinct id, using
      the lookup built from the second collection; the count is the
      passthrough count plus the number of distinct ids. */
  lemma EnhancedSpec(doc: Document, extra: Document, lib: Shapely, parse: string -> Option<real>)
    requires MergeTerrassesEnhanced(doc, extra, lib, parse).Ok?
    ensures extra.body.FeatureCollection? && BuildLookup(extra.body.features).Ok?
    ensures var kept := Filter(doc.body.features, NotEtalage);
      && MergeTerrassesEnhanced(doc, extra, lib, parse).value.1 == |Filter(kept, IsPassthrough)| + |Distinct(GroupedIds(kept))|
      && EnhancedLaidOut(MergeTerrassesEnhanced(doc, extra, lib, parse).value.0.features, kept,
                         BuildLookup(extra.body.features).value, lib, parse)
  {
    EnhancedLayout(doc, extra, lib, parse);
    EnrichedOutputSpec(Filter(doc.body.features, NotEtalage), BuildLookup(extra.body.features).value, lib, parse,
                       MergeTerrassesEnhanced(doc, extra, lib, parse).value.0.features);
  }

  /** The same layout, stated for the passthrough features followed by the
      enriched groups of `kept`. */
  lemma EnrichedOutputSpec(kept: seq<Feature>, l: Lookup, lib: Shapely, parse: string -> Option<real>, out: seq<Feature>)
    requires ValidLookup(l)
    requires NonEmptyGroups(PartitionOf(kept).groups)
    requires EnrichGroups(PartitionOf(kept).groups, l, lib, parse).Ok?
    requires out == PartitionOf(kept).passthrough + EnrichGroups(PartitionOf(kept).groups, l, lib, parse).value
    ensures EnhancedLaidOut(out, kept, l, lib, parse)
  {
    var p := PartitionOf(kept);
    PassthroughSpec(kept);
    GroupIdsSpec(kept);
    GroupMembersSpec(kept);
    IdsIndex(p.groups);
    var merged := EnrichGroups(p.groups, l, lib, parse).value;
    forall i | 0 <= i < |p.groups|
      ensures NamedGroup(out[|p.passthrough| + i], WithId(kept, Distinct(GroupedIds(kept))[i]), l, lib, parse)
    {
      assert out[|p.passthrough| + i] == merged[i] == EnrichGroup(p.groups[i], l, lib, parse).value;
      EnrichGroupSpec(p.groups[i], l, lib, parse);
      assert p.groups[i].members == WithId(kept, p.groups[i].id);
    }
  }

  /** A group output keeps the label of its first member. */
  lemma KeepsLabel(out: Feature, first: Feature)
    requires KeepsFirst(out, first)
    ensures Label(out) == Label(first)
  {
    assert "libelle_type" !in MergeKeys;
  }

  /** What the stall argument needs of a group output: the first member's
      label kept, and for a merge the members' labels listed. */
  ghost predicate GroupShape(out: Feature, members: seq<Feature>) {
    && |members| > 0
    && KeepsFirst(out, members[0])
    && (|members| > 1 ==>
          && OriginalTypes(members).Ok?
          && "original_types" in out.properties
          && out.properties["original_types"] == JArr(OriginalTypes(members).value))
  }

  /** No output of a run over the non-stall features `kept` is labelled
      `ETALAGE`, and no merged group lists it among its labels. */
  ghost predicate StallFree(out: seq<Feature>, kept: seq<Feature>) {
    var pt := Filter(kept, IsPassthrough);
    var ids := Distinct(GroupedIds(kept));
    && |out| == |pt| + |ids|
    && (forall i :: 0 <= i < |out| ==> Label(out[i]) != Etalage)
    && (forall i :: 0 <= i < |ids| && |WithId(kept, ids[i])| > 1 ==>
          && "original_types" in out[|pt| + i].properties
          && out[|pt| + i].properties["original_types"].JArr?
          && Etalage !in out[|pt| + i].properties["original_types"].items)
  }

  /** No output comes from a display stall: no output is labelled
      `ETALAGE`, and no merged group lists it among its labels. */
  lemma NoEtalageInOutput(doc: Document, extra: Document, lib: Shapely, parse: string -> Option<real>)
    requires MergeTerrassesEnhanced(doc, extra, lib, parse).Ok?
    ensures StallFree(MergeTerrassesEnhanced(doc, extra, lib, parse).value.0.features, Filter(doc.body.features, NotEtalage))
  {
    EnhancedSpec(doc, extra, lib, parse);
    LaidOutStallFree(Filter(doc.body.features, NotEtalage), BuildLookup(extra.body.features).value, lib, parse,
                     MergeTerrassesEnhanced(doc, extra, lib, parse).value.0.features);
  }

  /** The layout of the output, with every input a non-stall feature, gives
      the two facts above. */
  lemma LaidOutStallFree(kept: seq<Feature>, l: Lookup, lib: Shapely, parse: string -> Option<real>, out: seq<Feature>)
    requires forall j :: 0 <= j < |kept| ==> NotEtalage(kept[j])
    requires EnhancedLaidOut(out, kept, l, lib, parse)
    ensures StallFree(out, kept)
  {
    var pt := Filter(kept, IsPassthrough);
    var ids := Distinct(GroupedIds(kept));
    var groups := out[|pt|..];
    assert out == pt + groups;
    assert forall i :: 0 <= i < |ids| ==> NamedGroup(groups[i], WithId(kept, ids[i]), l, lib, parse);
    NamedShapes(kept, ids, groups, l, lib, parse);
    FilterKeepsStalls(kept);
    OutputsNoEtalage(kept, pt, ids, groups);
  }

  /** The passthrough features of non-stall features are non-stall
      features. */
  lemma FilterKeepsStalls(kept: seq<Feature>)
    requires forall j :: 0 <= j < |kept| ==> NotEtalage(kept[j])
    ensures forall j :: 0 <= j < |Filter(kept, IsPassthrough)| ==> NotEtalage(Filter(kept, IsPassthrough)[j])
  {
    var pt := Filter(kept, IsPassthrough);
    forall j | 0 <= j < |pt|
      ensures NotEtalage(pt[j])
    {
      var k :| 0 <= k < |kept| && kept[k] == pt[j];
    }
  }

  lemma NamedShapes(kept: seq<Feature>, ids: seq<Json>, groups: seq<Feature>, l: Lookup,
                    lib: Shapely, parse: string -> Option<real>)
    requires |groups| == |ids|
    requires forall i :: 0 <= i < |ids| ==> NamedGroup(groups[i], WithId(kept, ids[i]), l, lib, parse)
    ensures forall i :: 0 <= i < |ids| ==> GroupShape(groups[i], WithId(kept, ids[i]))
  {
    forall i | 0 <= i < |ids|
      ensures GroupShape(groups[i], WithId(kept, ids[i]))
    {
      var members := WithId(kept, ids[i]);
      NamedFacts(groups[i], members, NameFor(members[0].properties, l).value, lib, parse);
    }
  }

  /** Labels of the passthrough features followed by the group outputs. */
  lemma OutputsNoEtalage(kept: seq<Feature>, pt: seq<Feature>, ids: seq<Json>, groups: seq<Feature>)
    requires forall j :: 0 <= j < |kept| ==> NotEtalage(kept[j])
    requires forall j :: 0 <= j < |pt| ==> NotEtalage(pt[j])
    requires |groups| == |ids|
    requires forall i :: 0 <= i < |ids| ==> GroupShape(groups[i], WithId(kept, ids[i]))
    ensures forall i :: 0 <= i < |pt + groups| ==> Label((pt + groups)[i]) != Etalage
    ensures forall i :: 0 <= i < |ids| && |WithId(kept, ids[i])| > 1 ==>
      && "original_types" in groups[i].properties
      && groups[i].properties["original_types"].JArr?
      && Etalage !in groups[i].properties["original_types"].items
  {
    GroupsNoEtalage(kept, ids, groups);
    forall i | 0 <= i < |pt + groups|
      ensures Label((pt + groups)[i]) != Etalage
    {
      if i >= |pt| {
        assert (pt + groups)[i] == groups[i - |pt|];
      }
    }
  }

  lemma GroupsNoEtalage(kept: seq<Feature>, ids: seq<Json>, groups: seq<Feature>)
    requires forall j :: 0 <= j < |kept| ==> NotEtalage(kept[j])
    requires |groups| == |ids|
    requires forall i :: 0 <= i < |ids| ==> GroupShape(groups[i], WithId(kept, ids[i]))
    ensures forall i :: 0 <= i < |groups| ==> Label(groups[i]) != Etalage
    ensures forall i :: 0 <= i < |ids| && |WithId(kept, ids[i])| > 1 ==>
      && "original_types" in groups[i].properties
      && groups[i].properties["original_types"].JArr?
      && Etalage !in groups[i].properties["original_types"].items
  {
    forall i | 0 <= i < |ids|
      ensures Label(groups[i]) != Etalage
      ensures |WithId(kept, ids[i])| > 1 ==>
        && "original_types" in groups[i].properties
        && groups[i].properties["original_types"].JArr?
        && Etalage !in groups[i].properties["original_types"].items
    {
      GroupNoEtalage(kept, ids[i], groups[i]);
    }
  }

  /** A group of non-stall features gives an output that is not labelled
      `ETALAGE` and, when merged, does not list it. */
  lemma GroupNoEtalage(kept: seq<Feature>, id: Json, out: Feature)
    requires forall j :: 0 <= j < |kept| ==> NotEtalage(kept[j])
    requires GroupShape(out, WithId(kept, id))
    ensures Label(out) != Etalage
    ensures |WithId(kept, id)| > 1 ==>
      && "original_types" in out.properties
      && out.properties["original_types"].JArr?
      && Etalage !in out.properties["original_types"].items
  {
    var members := WithId(kept, id);
    MembersKept(kept, id);
    KeepsLabel(out, members[0]);
    assert NotEtalage(members[0]);
  }

  /** Every member of a group is a non-stall feature. */
  lemma MembersKept(kept: seq<Feature>, id: Json)
    requires forall j :: 0 <= j < |kept| ==> NotEtalage(kept[j])
    ensures forall j :: 0 <= j < |WithId(kept, id)| ==> NotEtalage(WithId(kept, id)[j])
  {
    WithIdMembers(kept, id);
  }
}
