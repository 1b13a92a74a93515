/** Inference as it runs: grouping, key intersection and property filling in loops. */
module SchemaBuilding {
  import opened Common
  import opened Documents
  import opened SchemaInference

  /** The dictionary holds each kind's values, in order of arrival, under the kinds that occur. */
  ghost predicate Grouped(grouped: map<Kind, seq<Json>>, values: seq<Json>) {
    forall kind :: if kind in grouped then grouped[kind] == OfKind(kind, values) != [] else OfKind(kind, values) == []
  }

  ghost predicate Merged(grouped: map<Kind, seq<Json>>, values: seq<Json>) {
    forall kind :: if kind in grouped then grouped[kind] == Group(kind, values) != [] else Group(kind, values) == []
  }

  function Add(grouped: map<Kind, seq<Json>>, v: Json): map<Kind, seq<Json>> {
    var kind := KindOf(v);
    grouped[kind := (if kind in grouped then grouped[kind] else []) + [v]]
  }

  lemma GroupedNext(grouped: map<Kind, seq<Json>>, values: seq<Json>, v: Json)
    requires Grouped(grouped, values)
    ensures Grouped(Add(grouped, v), values + [v])
  {
    assert (values + [v])[..|values|] == values;
  }

  method GroupByKind(values: seq<Json>) returns (grouped: map<Kind, seq<Json>>)
    ensures Grouped(grouped, values)
  {
    hide Grouped, Add;
    grouped := map[];
    assert Grouped(map[], []) by { NothingGrouped(); }
    for i := 0 to |values|
      invariant Grouped(grouped, values[..i])
    {
      GroupedNext(grouped, values[..i], values[i]);
      assert values[..i + 1] == values[..i] + [values[i]];
      grouped := Add(grouped, values[i]);
    }
    assert values[..|values|] == values;
  }

  lemma NothingGrouped()
    ensures Grouped(map[], [])
  {
  }

  lemma MergesNumbers(grouped: map<Kind, seq<Json>>, values: seq<Json>)
    requires Grouped(grouped, values)
    ensures
      if IntegerK in grouped && NumberK in grouped then
        Merged(grouped[NumberK := grouped[NumberK] + grouped[IntegerK]] - {IntegerK}, values)
      else Merged(grouped, values)
  {
    hide OfKind;
  }

  method InferSchema(values: seq<Json>) returns (s: Schema)
    ensures s == Infer(values)
    decreases Bound(values), 2
  {
    hide SchemaForKind, Group, Grouped;
    var grouped := GroupByKind(values);
    MergesNumbers(grouped, values);
    if IntegerK in grouped && NumberK in grouped {
      grouped := grouped[NumberK := grouped[NumberK] + grouped[IntegerK]] - {IntegerK};
    }
    var branches := BuildBranches(grouped, values);
    s := if |branches| == 1 then branches[0] else AnyOf(branches);
  }

  method BuildBranches(grouped: map<Kind, seq<Json>>, values: seq<Json>) returns (branches: seq<Schema>)
    requires Merged(grouped, values)
    ensures branches == BranchesFrom(values, 0)
    decreases Bound(values), 1
  {
    hide SchemaForKind, Group, BranchesFrom;
    branches := [];
    for i := 0 to |ORDER|
      invariant branches + BranchesFrom(values, i) == BranchesFrom(values, 0)
    {
      BranchesStep(values, i, branches);
      assert ORDER[i] in grouped <==> Group(ORDER[i], values) != [];
      if ORDER[i] in grouped {
        BoundOfSome(Group(ORDER[i], values), values);
        var branch := BuildForKind(ORDER[i], grouped[ORDER[i]]);
        branches := branches + [branch];
      }
    }
    NoBranchesLeft(values);
  }

  lemma BranchesStep(values: seq<Json>, i: nat, branches: seq<Schema>)
    requires i < |ORDER|
    ensures branches + BranchesFrom(values, i) ==
            (if Group(ORDER[i], values) == [] then branches
             else branches + [SchemaForKind(ORDER[i], Group(ORDER[i], values))]) + BranchesFrom(values, i + 1)
  {
    hide SchemaForKind, Group;
  }

  lemma NoBranchesLeft(values: seq<Json>)
    ensures BranchesFrom(values, |ORDER|) == []
  {
  }

  method BuildForKind(kind: Kind, values: seq<Json>) returns (s: Schema)
    requires values != [] && forall v <- values :: HasType(kind, v)
    ensures s == SchemaForKind(kind, values)
    decreases Bound(values), 0, 2
  {
    if kind == ObjectK {
      s := BuildForObjects(values);
    } else if kind == ArrayK {
      s := BuildForArrays(values);
    } else {
      s := TypeOnly(kind);
    }
  }

  method BuildForObjects(values: seq<Json>) returns (s: Schema)
    requires values != [] && forall v <- values :: HasType(ObjectK, v)
    ensures s == SchemaForKind(ObjectK, values)
    decreases Bound(values), 0, 1
  {
    hide Infer;
    assert forall v <- values :: HasType(ObjectK, v) && v.Obj?;
    var required := RequiredKeys(values);
    var properties := Properties(values);
    s := ObjectSchema(properties, required);
  }

  method BuildForArrays(values: seq<Json>) returns (s: Schema)
    requires values != [] && forall v <- values :: HasType(ArrayK, v)
    ensures s == SchemaForKind(ArrayK, values)
    decreases Bound(values), 0, 1
  {
    hide Infer;
    assert forall v <- values :: HasType(ArrayK, v) && v.Arr?;
    var items := AllItems(values);
    if items == [] {
      return ArraySchema(None);
    }
    BoundOfChildren(items, values);
    var element := InferSchema(items);
    s := ArraySchema(Some(element));
  }

  /** Start from the first object's keys and intersect with each further object's. */
  method RequiredKeys(values: seq<Json>) returns (required: set<string>)
    requires values != [] && forall v <- values :: v.Obj?
    ensures required == Intersection(values)
  {
    required := values[0].fields.Keys;
    for i := 1 to |values|
      invariant forall k :: k in required <==> forall v <- values[..i] :: k in v.fields
    {
      assert values[..i + 1] == values[..i] + [values[i]];
      required := required * values[i].fields.Keys;
    }
    assert values[..|values|] == values;
  }

  method Properties(values: seq<Json>) returns (properties: map<string, Schema>)
    requires values != [] && forall v <- values :: v.Obj?
    ensures properties == map k | k in Union(values) :: Infer(ValuesAt(k, values))
    decreases Bound(values), 0, 0
  {
    properties := map[];
    var keys := Union(values);
    while keys != {}
      invariant keys <= Union(values) && properties.Keys == Union(values) - keys
      invariant forall k <- properties :: properties[k] == Infer(ValuesAt(k, values))
      decreases keys
    {
      var k :| k in keys;
      BoundOfChildren(ValuesAt(k, values), values);
      var schema := InferSchema(ValuesAt(k, values));
      properties := properties[k := schema];
      keys := keys - {k};
    }
  }
}
