/** Grouping terrace features by their `iddossier` (the permit file they
    belong to), as both merge scripts do: a feature without an id, or with the
    literal id `"unknown"`, passes through; the others are collected per id,
    the groups ordered by first appearance of their id (Python dictionaries
    keep insertion order). */
module Grouping {
  import opened JsonValue
  import opened GeoJson
  import opened Seqs

  /** The id a feature without `iddossier` is given. */
  const Unknown: Json := JStr("unknown")

  /** `feature['properties'].get('iddossier', 'unknown')` */
  function IdOf(f: Feature): Json {
    Get(f.properties, "iddossier", Unknown)
  }

  predicate IsPassthrough(f: Feature) {
    IdOf(f) == Unknown
  }

  predicate IsGrouped(f: Feature) {
    IdOf(f) != Unknown
  }

  /** Python can use the value as a dictionary key: lists and dictionaries
      cannot be hashed. */
  predicate Hashable(v: Json) {
    !v.JArr? && !v.JObj?
  }

  /** Every id used as a dictionary key can be hashed; otherwise the grouping
      loop raises `TypeError`. */
  predicate IdsHashable(fs: seq<Feature>) {
    forall i :: 0 <= i < |fs| && IsGrouped(fs[i]) ==> Hashable(IdOf(fs[i]))
  }

  datatype Group = Group(id: Json, members: seq<Feature>)

  datatype Partition = Partition(passthrough: seq<Feature>, groups: seq<Group>)

  function Ids(groups: seq<Group>): (r: seq<Json>)
    ensures |r| == |groups|
    decreases |groups|
  {
    if |groups| == 0 then [] else [groups[0].id] + Ids(groups[1..])
  }

  /** The ids of the grouped features, in input order, repeats included. */
  function GroupedIds(fs: seq<Feature>): seq<Json>
    decreases |fs|
  {
    if |fs| == 0 then []
    else
      var last := fs[|fs| - 1];
      GroupedIds(fs[..|fs| - 1]) + (if IsGrouped(last) then [IdOf(last)] else [])
  }

  /** The grouped features with id `id`, in input order. */
  function WithId(fs: seq<Feature>, id: Json): seq<Feature>
    decreases |fs|
  {
    if |fs| == 0 then []
    else
      var last := fs[|fs| - 1];
      WithId(fs[..|fs| - 1], id) + (if IsGrouped(last) && IdOf(last) == id then [last] else [])
  }

  /** Total number of members over all groups. */
  function MemberCount(groups: seq<Group>): nat
    decreases |groups|
  {
    if |groups| == 0 then 0 else |groups[0].members| + MemberCount(groups[1..])
  }

  /** Appends `f` to the group of `id`, opening a new group at the end when
      `id` is new. */
  function AddTo(groups: seq<Group>, id: Json, f: Feature): (r: seq<Group>)
    ensures |r| == if id in Ids(groups) then |groups| else |groups| + 1
    decreases |groups|
  {
    if |groups| == 0 then [Group(id, [f])]
    else if groups[0].id == id then [Group(id, groups[0].members + [f])] + groups[1..]
    else [groups[0]] + AddTo(groups[1..], id, f)
  }

  /** Adding to a group extends the id list only with a new id, extends
      exactly the group of `id`, and adds one member. */
  lemma {:induction false} AddToSpec(groups: seq<Group>, id: Json, f: Feature)
    requires NoDuplicates(Ids(groups))
    ensures var r := AddTo(groups, id, f);
      && Ids(r) == (if id in Ids(groups) then Ids(groups) else Ids(groups) + [id])
      && (forall i :: 0 <= i < |groups| ==> r[i].id == groups[i].id)
      && (forall i :: 0 <= i < |groups| ==> r[i].members == groups[i].members + (if groups[i].id == id then [f] else []))
      && (id !in Ids(groups) ==> r[|groups|] == Group(id, [f]))
      && MemberCount(r) == MemberCount(groups) + 1
    decreases |groups|
  {
    if |groups| > 0 {
      var r := AddTo(groups, id, f);
      assert Ids(groups) == [groups[0].id] + Ids(groups[1..]);
      if groups[0].id == id {
        assert Ids(r) == [id] + Ids(groups[1..]);
        assert r[1..] == groups[1..];
        IdsIndex(groups);
        assert forall i :: 1 <= i < |groups| ==> Ids(groups)[i] != Ids(groups)[0];
      } else {
        assert Ids(groups[1..]) == Ids(groups)[1..];
        AddToSpec(groups[1..], id, f);
        assert r[1..] == AddTo(groups[1..], id, f);
        assert Ids(r) == [groups[0].id] + Ids(r[1..]);
      }
    }
  }

  lemma {:induction false} IdsIndex(groups: seq<Group>)
    ensures forall i :: 0 <= i < |groups| ==> Ids(groups)[i] == groups[i].id
    decreases |groups|
  {
    if |groups| > 0 {
      IdsIndex(groups[1..]);
    }
  }

  /** The grouping loop of both merge scripts. */
  function PartitionOf(fs: seq<Feature>): (p: Partition)
    decreases |fs|
  {
    if |fs| == 0 then Partition([], [])
    else
      var p := PartitionOf(fs[..|fs| - 1]);
      var f := fs[|fs| - 1];
      if IsPassthrough(f) then Partition(p.passthrough + [f], p.groups)
      else Partition(p.passthrough, AddTo(p.groups, IdOf(f), f))
  }

  lemma {:induction false} WithIdAbsent(fs: seq<Feature>, id: Json)
    requires id !in GroupedIds(fs)
    ensures WithId(fs, id) == []
    decreases |fs|
  {
    if |fs| > 0 {
      WithIdAbsent(fs[..|fs| - 1], id);
    }
  }

  /** The passthrough features are those without an id, in input order. */
  lemma {:induction false} PassthroughSpec(fs: seq<Feature>)
    ensures PartitionOf(fs).passthrough == Filter(fs, IsPassthrough)
    decreases |fs|
  {
    if |fs| > 0 {
      PassthroughSpec(fs[..|fs| - 1]);
    }
  }

  /** There is one group per distinct id, in order of first appearance. */
  lemma {:induction false} GroupIdsSpec(fs: seq<Feature>)
    ensures Ids(PartitionOf(fs).groups) == Distinct(GroupedIds(fs))
    decreases |fs|
  {
    if |fs| > 0 {
      var init := fs[..|fs| - 1];
      var f := fs[|fs| - 1];
      GroupIdsSpec(init);
      var p := PartitionOf(init);
      var gi := GroupedIds(init);
      var gf := GroupedIds(fs);
      if IsGrouped(f) {
        var id := IdOf(f);
        assert PartitionOf(fs).groups == AddTo(p.groups, id, f);
        AddToSpec(p.groups, id, f);
        assert gf == gi + [id];
        assert gf[..|gf| - 1] == gi;
        assert Distinct(gf) == if id in Distinct(gi) then Distinct(gi) else Distinct(gi) + [id];
      } else {
        assert PartitionOf(fs).groups == p.groups;
        assert gf == gi;
      }
    }
  }

  /** Every group holds exactly the features of `fs` with its id. */
  ghost predicate MembersMatch(groups: seq<Group>, fs: seq<Feature>) {
    forall i :: 0 <= i < |groups| ==> groups[i].members == WithId(fs, groups[i].id)
  }

  /** Each group holds exactly the features with its id, in input order. */
  lemma {:induction false} GroupMembersSpec(fs: seq<Feature>)
    ensures MembersMatch(PartitionOf(fs).groups, fs)
    decreases |fs|
  {
    if |fs| > 0 {
      var init := fs[..|fs| - 1];
      var f := fs[|fs| - 1];
      GroupMembersSpec(init);
      GroupIdsSpec(init);
      assert fs == init + [f];
      if IsGrouped(f) {
        assert IdOf(f) in Ids(PartitionOf(init).groups) <==> IdOf(f) in GroupedIds(init);
        MembersStep(init, f, PartitionOf(init).groups);
      } else {
        PassthroughStep(init, f, PartitionOf(init).groups);
      }
    }
  }

  /** One step of the grouping loop keeps every group equal to the features
      with its id. */
  lemma MembersStep(init: seq<Feature>, f: Feature, groups: seq<Group>)
    requires IsGrouped(f)
    requires NoDuplicates(Ids(groups))
    requires IdOf(f) in Ids(groups) <==> IdOf(f) in GroupedIds(init)
    requires MembersMatch(groups, init)
    ensures MembersMatch(AddTo(groups, IdOf(f), f), init + [f])
  {
    var id := IdOf(f);
    var gs := AddTo(groups, id, f);
    var fs := init + [f];
    assert fs[..|fs| - 1] == init;
    AddToSpec(groups, id, f);
    if id !in Ids(groups) {
      WithIdAbsent(init, id);
    }
    forall i | 0 <= i < |gs|
      ensures gs[i].members == WithId(fs, gs[i].id)
    {
      assert WithId(fs, gs[i].id) == WithId(init, gs[i].id) + (if id == gs[i].id then [f] else []);
    }
  }

  /** A passthrough feature leaves every group as it was. */
  lemma PassthroughStep(init: seq<Feature>, f: Feature, groups: seq<Group>)
    requires IsPassthrough(f)
    requires MembersMatch(groups, init)
    ensures MembersMatch(groups, init + [f])
  {
    var fs := init + [f];
    assert fs[..|fs| - 1] == init;
    forall i | 0 <= i < |groups|
      ensures groups[i].members == WithId(fs, groups[i].id)
    {
      assert WithId(fs, groups[i].id) == WithId(init, groups[i].id);
    }
  }

  /** Every input feature ends up in exactly one place. */
  lemma {:induction false} PartitionCount(fs: seq<Feature>)
    ensures |PartitionOf(fs).passthrough| + MemberCount(PartitionOf(fs).groups) == |fs|
    decreases |fs|
  {
    if |fs| > 0 {
      var init := fs[..|fs| - 1];
      PartitionCount(init);
      GroupIdsSpec(init);
      if IsGrouped(fs[|fs| - 1]) {
        AddToSpec(PartitionOf(init).groups, IdOf(fs[|fs| - 1]), fs[|fs| - 1]);
      }
    }
  }

  /** A group is never empty, and its members all carry its id. */
  lemma GroupsNonEmpty(fs: seq<Feature>)
    ensures forall i :: 0 <= i < |PartitionOf(fs).groups| ==> |PartitionOf(fs).groups[i].members| > 0
    ensures forall i, j :: 0 <= i < |PartitionOf(fs).groups| && 0 <= j < |PartitionOf(fs).groups[i].members| ==>
      IsGrouped(PartitionOf(fs).groups[i].members[j]) && IdOf(PartitionOf(fs).groups[i].members[j]) == PartitionOf(fs).groups[i].id
  {
    GroupIdsSpec(fs);
    GroupMembersSpec(fs);
    var gs := PartitionOf(fs).groups;
    IdsIndex(gs);
    forall i | 0 <= i < |gs|
      ensures |gs[i].members| > 0
      ensures forall j :: 0 <= j < |gs[i].members| ==> IsGrouped(gs[i].members[j]) && IdOf(gs[i].members[j]) == gs[i].id
    {
      assert gs[i].id == Distinct(GroupedIds(fs))[i];
      WithIdNonEmpty(fs, gs[i].id);
      WithIdMembers(fs, gs[i].id);
    }
  }

  lemma {:induction false} WithIdNonEmpty(fs: seq<Feature>, id: Json)
    requires id in GroupedIds(fs)
    ensures |WithId(fs, id)| > 0
    decreases |fs|
  {
    var init := fs[..|fs| - 1];
    var last := fs[|fs| - 1];
    if !(IsGrouped(last) && IdOf(last) == id) {
      WithIdNonEmpty(init, id);
    }
  }

  lemma {:induction false} WithIdMembers(fs: seq<Feature>, id: Json)
    ensures forall j :: 0 <= j < |WithId(fs, id)| ==> IsGrouped(WithId(fs, id)[j]) && IdOf(WithId(fs, id)[j]) == id
    ensures forall j :: 0 <= j < |WithId(fs, id)| ==> WithId(fs, id)[j] in fs
    decreases |fs|
  {
    if |fs| > 0 {
      WithIdMembers(fs[..|fs| - 1], id);
    }
  }
}
