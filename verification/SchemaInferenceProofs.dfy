/** What an inferred schema accepts, exactly; soundness; and independence of the examples' order
    and multiplicity. */
module SchemaInferenceProofs {
  import opened Documents
  import opened SchemaInference

  predicate Has(kind: Kind, values: seq<Json>) {
    exists v <- values :: KindOf(v) == kind
  }

  predicate Integral(v: Json) {
    v.Float? && v.r == v.r.Floor as real
  }

  /** Some object among the examples has the key. */
  ghost predicate SomeHas(k: string, values: seq<Json>) {
    exists e <- values :: e.Obj? && k in e.fields
  }

  /** Every object among the examples has the key. */
  ghost predicate AllHave(k: string, values: seq<Json>) {
    forall e <- values | e.Obj? :: k in e.fields
  }

  /** What the examples license, read off the examples themselves: no schema is built. A list whose
      examples are all empty licenses every list. */
  ghost predicate Licensed(values: seq<Json>, v: Json)
    decreases v
  {
    match v
    case Null => Null in values
    case Bool(_) => exists e <- values :: e.Bool?
    case Int(_) => exists e <- values :: e.Int? || e.Float?
    case Float(_) => exists e <- values :: e.Float? || (Integral(v) && e.Int?)
    case Str(_) => exists e <- values :: e.Str?
    case Arr(items) =>
      && (exists e <- values :: e.Arr?)
      && (AllItems(values) == [] || forall i | 0 <= i < |items| :: Licensed(AllItems(values), items[i]))
    case Obj(fields) =>
      && (exists e <- values :: e.Obj?)
      && (forall k | AllHave(k, values) :: k in fields)
      && (forall k | k in fields :: SomeHas(k, values) && Licensed(ValuesAt(k, values), fields[k]))
  }

  lemma {:induction false} ArraysOnly(values: seq<Json>)
    ensures AllItems(OfKind(ArrayK, values)) == AllItems(values)
  {
    if values != [] {
      var init, last := values[..|values| - 1], values[|values| - 1];
      ArraysOnly(init);
      var some := OfKind(ArrayK, init);
      assert some + [] == some && (some + [last])[..|some|] == some;
      assert AllItems(init) + [] == AllItems(init);
    }
  }

  lemma {:induction false} ObjectsOnly(k: string, values: seq<Json>)
    ensures ValuesAt(k, OfKind(ObjectK, values)) == ValuesAt(k, values)
  {
    if values != [] {
      var init, last := values[..|values| - 1], values[|values| - 1];
      ObjectsOnly(k, init);
      var some := OfKind(ObjectK, init);
      assert some + [] == some && (some + [last])[..|some|] == some;
      assert ValuesAt(k, init) + [] == ValuesAt(k, init);
    }
  }

  lemma ObjectKeys(values: seq<Json>)
    requires OfKind(ObjectK, values) != []
    ensures forall k :: k in Union(OfKind(ObjectK, values)) <==> SomeHas(k, values)
    ensures forall k :: k in Intersection(OfKind(ObjectK, values)) <==> AllHave(k, values)
  {
    var objects := OfKind(ObjectK, values);
    assert forall v :: v in objects <==> v in values && v.Obj?;
    forall k ensures k in Union(objects) <==> SomeHas(k, values) {
      if e :| e in values && e.Obj? && k in e.fields {
        assert e in objects;
      }
    }
    forall k ensures k in Intersection(objects) <==> AllHave(k, values) {
      if k in Intersection(objects) {
        assert forall e <- values | e.Obj? :: e in objects;
      }
    }
  }

  // ---------------------------------------------------------------- branches

  /** The branch of one kind is there and accepts `v`. */
  ghost predicate KindAccepts(values: seq<Json>, kind: Kind, v: Json) {
    Group(kind, values) != [] && Validates(SchemaForKind(kind, Group(kind, values)), v)
  }

  /** Some branch from position `i` on accepts `v`. */
  ghost predicate BranchAccepts(values: seq<Json>, i: nat, v: Json)
    requires i <= |ORDER|
    decreases |ORDER| - i
  {
    i < |ORDER| && (KindAccepts(values, ORDER[i], v) || BranchAccepts(values, i + 1, v))
  }

  lemma {:induction false} BranchesAccept(values: seq<Json>, i: nat, v: Json)
    requires i <= |ORDER|
    ensures Validates(AnyOf(BranchesFrom(values, i)), v) <==> BranchAccepts(values, i, v)
    decreases |ORDER| - i
  {
    if i < |ORDER| {
      hide SchemaForKind, Group;
      BranchesAccept(values, i + 1, v);
      var group := Group(ORDER[i], values);
      BoundOfSome(group, values);
      if group != [] {
        SingleBranch(SchemaForKind(ORDER[i], group), v);
      } else {
        SingleBranch(TypeOnly(NullK), v);
      }
      AnyOfJoins(if group == [] then [] else [SchemaForKind(ORDER[i], group)], BranchesFrom(values, i + 1), v);
    }
  }

  lemma AnyOfJoins(a: seq<Schema>, b: seq<Schema>, v: Json)
    ensures Validates(AnyOf(a + b), v) <==> Validates(AnyOf(a), v) || Validates(AnyOf(b), v)
  {
    assert forall i | 0 <= i < |b| :: (a + b)[|a| + i] == b[i];
    assert forall i | 0 <= i < |a| :: (a + b)[i] == a[i];
  }

  lemma SingleBranch(s: Schema, v: Json)
    ensures Validates(AnyOf([s]), v) <==> Validates(s, v)
    ensures !Validates(AnyOf([]), v)
  {
    assert [s][0] == s;
  }

  /** A single branch stands for itself, so the union reading is always right. */
  lemma InferAccepts(values: seq<Json>, v: Json)
    ensures Validates(Infer(values), v) <==> BranchAccepts(values, 0, v)
  {
    hide BranchesFrom;
    BranchesAccept(values, 0, v);
    var branches := BranchesFrom(values, 0);
    if |branches| == 1 {
      assert branches == [branches[0]];
      SingleBranch(branches[0], v);
    }
  }

  lemma ScalarGroups(values: seq<Json>)
    ensures forall kind :: OfKind(kind, values) != [] <==> Has(kind, values)
  {
    forall kind ensures OfKind(kind, values) != [] <==> Has(kind, values) {
      var r := OfKind(kind, values);
      if r != [] {
        assert r[0] in r;
      }
      if v :| v in values && KindOf(v) == kind {
        assert v in r;
      }
    }
  }

  lemma SevenBranches(values: seq<Json>, v: Json)
    ensures Validates(Infer(values), v) <==>
      || KindAccepts(values, NullK, v) || KindAccepts(values, BooleanK, v) || KindAccepts(values, IntegerK, v)
      || KindAccepts(values, NumberK, v) || KindAccepts(values, StringK, v) || KindAccepts(values, ArrayK, v)
      || KindAccepts(values, ObjectK, v)
  {
    hide KindAccepts, Infer;
    InferAccepts(values, v);
    assert BranchAccepts(values, 5, v) <==> KindAccepts(values, ArrayK, v) || KindAccepts(values, ObjectK, v);
    assert BranchAccepts(values, 3, v) <==>
      KindAccepts(values, NumberK, v) || KindAccepts(values, StringK, v) || BranchAccepts(values, 5, v);
    assert BranchAccepts(values, 1, v) <==>
      KindAccepts(values, BooleanK, v) || KindAccepts(values, IntegerK, v) || BranchAccepts(values, 3, v);
  }

  lemma ScalarKind(values: seq<Json>, kind: Kind, v: Json)
    requires kind != ArrayK && kind != ObjectK
    ensures KindAccepts(values, kind, v) <==>
      HasType(kind, v) && Has(kind, values) && (kind == IntegerK ==> !Has(NumberK, values))
  {
    ScalarGroups(values);
  }

  // ---------------------------------------------------------------- exactness

  /** The inferred schema accepts exactly what the examples license. */
  lemma {:induction false} InferExact(values: seq<Json>, v: Json)
    ensures Validates(Infer(values), v) <==> Licensed(values, v)
    decreases v, 1
  {
    SevenBranches(values, v);
    ScalarBranches(values, v);
    if v.Arr? {
      ArrayExact(values, v);
    } else if v.Obj? {
      ObjectExact(values, v);
    }
    CompoundKinds(values, v);
  }

  /** The scalar branches together accept exactly the scalars of a kind that occurred. */
  lemma ScalarBranches(values: seq<Json>, v: Json)
    ensures
      (|| KindAccepts(values, NullK, v) || KindAccepts(values, BooleanK, v) || KindAccepts(values, IntegerK, v)
       || KindAccepts(values, NumberK, v) || KindAccepts(values, StringK, v))
      <==> !v.Arr? && !v.Obj? && Licensed(values, v)
  {
    hide KindAccepts;
    ScalarKind(values, NullK, v);
    ScalarKind(values, BooleanK, v);
    ScalarKind(values, IntegerK, v);
    ScalarKind(values, NumberK, v);
    ScalarKind(values, StringK, v);
  }

  /** Array and object branches accept nothing but arrays and objects. */
  lemma CompoundKinds(values: seq<Json>, v: Json)
    ensures KindAccepts(values, ArrayK, v) ==> v.Arr?
    ensures KindAccepts(values, ObjectK, v) ==> v.Obj?
  {
  }

  lemma {:induction false} ArrayExact(values: seq<Json>, v: Json)
    requires v.Arr?
    ensures KindAccepts(values, ArrayK, v) <==> Licensed(values, v)
    decreases v, 0
  {
    hide Infer;
    ScalarGroups(values);
    ArraysOnly(values);
    var items := AllItems(values);
    forall i | 0 <= i < |v.items| ensures Validates(Infer(items), v.items[i]) <==> Licensed(items, v.items[i]) {
      InferExact(items, v.items[i]);
    }
  }

  lemma {:induction false} ObjectExact(values: seq<Json>, v: Json)
    requires v.Obj?
    ensures KindAccepts(values, ObjectK, v) <==> Licensed(values, v)
    decreases v, 0, 1
  {
    hide Infer, SchemaForKind, Union, Intersection, Has, ValuesAt;
    ScalarGroups(values);
    var objects := OfKind(ObjectK, values);
    if objects != [] {
      assert objects[0] in objects;
      ObjectSchemaShape(objects);
      ObjectKeys(values);
      FieldsExact(values, v);
      forall k ensures ValuesAt(k, objects) == ValuesAt(k, values) {
        ObjectsOnly(k, values);
      }
    }
  }

  lemma {:induction false} FieldsExact(values: seq<Json>, v: Json)
    requires v.Obj?
    ensures forall k | k in v.fields ::
      Validates(Infer(ValuesAt(k, values)), v.fields[k]) <==> Licensed(ValuesAt(k, values), v.fields[k])
    decreases v, 0, 0
  {
    hide *;
    forall k | k in v.fields
      ensures Validates(Infer(ValuesAt(k, values)), v.fields[k]) <==> Licensed(ValuesAt(k, values), v.fields[k])
    {
      InferExact(ValuesAt(k, values), v.fields[k]);
    }
  }

  lemma ObjectSchemaShape(objects: seq<Json>)
    requires objects != [] && forall v <- objects :: v.Obj?
    ensures
      var s := SchemaForKind(ObjectK, objects);
      && s.ObjectSchema? && s.properties.Keys == Union(objects) && s.required == Intersection(objects)
      && forall k | k in Union(objects) :: s.properties[k] == Infer(ValuesAt(k, objects))
  {
    hide Infer, Validates;
  }

  // ---------------------------------------------------------------- soundness

  /** Every example is licensed by the examples. */
  lemma {:induction false} ExamplesLicensed(values: seq<Json>, v: Json)
    requires v in values
    ensures Licensed(values, v)
    decreases v
  {
    if v.Arr? {
      forall i | 0 <= i < |v.items| ensures Licensed(AllItems(values), v.items[i]) {
        assert v.items[i] in v.items;
        ExamplesLicensed(AllItems(values), v.items[i]);
      }
    } else if v.Obj? {
      forall k | k in v.fields ensures Licensed(ValuesAt(k, values), v.fields[k]) {
        ExamplesLicensed(ValuesAt(k, values), v.fields[k]);
      }
    }
  }

  /** Inference is sound at every depth: each example validates against the schema inferred from all. */
  lemma InferSound(values: seq<Json>, v: Json)
    requires v in values
    ensures Validates(Infer(values), v)
  {
    ExamplesLicensed(values, v);
    InferExact(values, v);
  }

  // ---------------------------------------------------------------- only the set of examples matters

  ghost predicate SameSet(a: seq<Json>, b: seq<Json>) {
    forall v :: v in a <==> v in b
  }

  lemma SameKinds(a: seq<Json>, b: seq<Json>)
    requires SameSet(a, b)
    ensures forall kind ::
              SameSet(OfKind(kind, a), OfKind(kind, b)) && (OfKind(kind, a) == [] <==> OfKind(kind, b) == [])
  {
    forall kind
      ensures SameSet(OfKind(kind, a), OfKind(kind, b)) && (OfKind(kind, a) == [] <==> OfKind(kind, b) == [])
    {
      SameEmptiness(OfKind(kind, a), OfKind(kind, b));
    }
  }

  lemma SameGroups(a: seq<Json>, b: seq<Json>, kind: Kind)
    requires SameSet(a, b)
    ensures SameSet(Group(kind, a), Group(kind, b)) && (Group(kind, a) == [] <==> Group(kind, b) == [])
  {
    hide OfKind;
    SameKinds(a, b);
  }

  /** Permuting or repeating the examples changes nothing. */
  lemma {:induction false} InferDependsOnSetOnly(a: seq<Json>, b: seq<Json>)
    requires SameSet(a, b)
    ensures Infer(a) == Infer(b)
    decreases Bound(a), 2
  {
    BranchesDependOnSetOnly(a, b, 0);
  }

  lemma {:induction false} BranchesDependOnSetOnly(a: seq<Json>, b: seq<Json>, i: nat)
    requires SameSet(a, b) && i <= |ORDER|
    ensures BranchesFrom(a, i) == BranchesFrom(b, i)
    decreases Bound(a), 1, |ORDER| - i
  {
    if i < |ORDER| {
      hide SchemaForKind, Group;
      BranchesDependOnSetOnly(a, b, i + 1);
      var group, group' := Group(ORDER[i], a), Group(ORDER[i], b);
      SameGroups(a, b, ORDER[i]);
      BoundOfSome(group, a);
      if group != [] {
        KindDependsOnSetOnly(ORDER[i], group, group');
      }
    }
  }

  lemma {:induction false} KindDependsOnSetOnly(kind: Kind, a: seq<Json>, b: seq<Json>)
    requires a != [] && b != [] && SameSet(a, b) && forall v <- a :: HasType(kind, v)
    ensures SchemaForKind(kind, a) == SchemaForKind(kind, b)
    decreases Bound(a), 0, 1
  {
    if kind == ObjectK {
      ObjectDependsOnSetOnly(a, b);
    } else if kind == ArrayK {
      ArrayDependsOnSetOnly(a, b);
    }
  }

  lemma SameKeys(a: seq<Json>, b: seq<Json>)
    requires a != [] && b != [] && SameSet(a, b) && forall v <- a :: v.Obj?
    ensures Union(a) == Union(b) && Intersection(a) == Intersection(b)
    ensures forall k :: SameSet(ValuesAt(k, a), ValuesAt(k, b))
  {
  }

  lemma {:induction false} ObjectDependsOnSetOnly(a: seq<Json>, b: seq<Json>)
    requires a != [] && b != [] && SameSet(a, b) && forall v <- a :: v.Obj?
    ensures SchemaForKind(ObjectK, a) == SchemaForKind(ObjectK, b)
    decreases Bound(a), 0, 0
  {
    hide Infer, SchemaForKind, Union, Intersection, ValuesAt;
    ObjectSchemaShape(a);
    ObjectSchemaShape(b);
    SameKeys(a, b);
    var s, t := SchemaForKind(ObjectK, a), SchemaForKind(ObjectK, b);
    forall k | k in Union(a) ensures s.properties[k] == t.properties[k] {
      BoundOfChildren(ValuesAt(k, a), a);
      InferDependsOnSetOnly(ValuesAt(k, a), ValuesAt(k, b));
    }
    assert s.properties == t.properties;
  }

  lemma SameEmptiness(a: seq<Json>, b: seq<Json>)
    requires SameSet(a, b)
    ensures a == [] <==> b == []
  {
    assert a != [] ==> a[0] in b;
    assert b != [] ==> b[0] in a;
  }

  lemma {:induction false} ArrayDependsOnSetOnly(a: seq<Json>, b: seq<Json>)
    requires a != [] && b != [] && SameSet(a, b) && forall v <- a :: v.Arr?
    ensures SchemaForKind(ArrayK, a) == SchemaForKind(ArrayK, b)
    decreases Bound(a), 0, 0
  {
    hide Infer;
    assert SameSet(AllItems(a), AllItems(b));
    SameEmptiness(AllItems(a), AllItems(b));
    BoundOfChildren(AllItems(a), a);
    InferDependsOnSetOnly(AllItems(a), AllItems(b));
  }
}
