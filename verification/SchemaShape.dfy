/** The inferred schema itself, branch by branch: one canonical schema for the examples. */
module SchemaShape {
  import opened Common
  import opened Documents
  import opened SchemaInference
  import opened SchemaInferenceProofs

  // ---------------------------------------------------------------- the canonical schema

  /** The place of a branch in a union. */
  function Rank(s: Schema): nat {
    match s
    case TypeOnly(NullK) => 0
    case TypeOnly(BooleanK) => 1
    case TypeOnly(IntegerK) => 2
    case TypeOnly(NumberK) => 3
    case TypeOnly(StringK) => 4
    case ArraySchema(_) => 5
    case ObjectSchema(_, _) => 6
    case _ => 7
  }

  /** Whether the examples call for a branch at that place: integers only where no other number occurs. */
  ghost predicate Calls(values: seq<Json>, rank: nat) {
    || (rank == 0 && Null in values)
    || (rank == 1 && exists e <- values :: e.Bool?)
    || (rank == 2 && (exists e <- values :: e.Int?) && forall e <- values :: !e.Float?)
    || (rank == 3 && exists e <- values :: e.Float?)
    || (rank == 4 && exists e <- values :: e.Str?)
    || (rank == 5 && exists e <- values :: e.Arr?)
    || (rank == 6 && exists e <- values :: e.Obj?)
  }

  function Branches(s: Schema): seq<Schema> {
    if s.AnyOf? then s.branches else [s]
  }

  predicate InPlaces(branches: seq<Schema>) {
    forall i, j | 0 <= i < j < |branches| :: Rank(branches[i]) < Rank(branches[j])
  }

  predicate HasPlace(branches: seq<Schema>, rank: nat) {
    exists b <- branches :: Rank(b) == rank
  }

  /** One branch for each place called for, in that order, under a union unless there is just one. */
  ghost predicate RightBranches(s: Schema, values: seq<Json>) {
    var branches := Branches(s);
    && (s.AnyOf? ==> |branches| != 1)
    && InPlaces(branches) && (forall rank :: Calls(values, rank) <==> HasPlace(branches, rank))
  }

  /** The schema of the examples: an object's properties are the keys that occur and its required ones those that
      always occur, each with the schema of its values; an array's element has the schema of all items. */
  ghost predicate Canonical(s: Schema, values: seq<Json>)
    decreases s, 1
  {
    RightBranches(s, values) &&
    if s.AnyOf? then forall i | 0 <= i < |s.branches| :: CanonicalBranch(s.branches[i], values)
    else CanonicalBranch(s, values)
  }

  ghost predicate CanonicalBranch(b: Schema, values: seq<Json>)
    decreases b, 0
  {
    match b
    case TypeOnly(_) => true
    case ArraySchema(element) =>
      if AllItems(values) == [] then element.None?
      else element.Some? && Canonical(element.value, AllItems(values))
    case ObjectSchema(properties, required) =>
      && (forall k :: k in properties <==> SomeHas(k, values))
      && (forall k :: k in required <==> AllHave(k, values))
      && forall k | k in properties :: Canonical(properties[k], ValuesAt(k, values))
    case AnyOf(_) => false
  }

  // ---------------------------------------------------------------- inference builds it

  /** The branch inference builds at a position of the canonical order, if any. */
  ghost predicate BuiltAt(values: seq<Json>, i: nat, b: Schema) {
    i < |ORDER| && Group(ORDER[i], values) != [] && b == SchemaForKind(ORDER[i], Group(ORDER[i], values))
  }

  lemma KindRank(kind: Kind, values: seq<Json>, i: nat)
    requires i < |ORDER| && ORDER[i] == kind && values != [] && forall v <- values :: HasType(kind, v)
    ensures Rank(SchemaForKind(kind, values)) == i && !SchemaForKind(kind, values).AnyOf?
  {
    hide Infer, HasType;
  }

  lemma GroupCalled(values: seq<Json>, i: nat)
    requires i < |ORDER|
    ensures Group(ORDER[i], values) != [] <==> Calls(values, i)
  {
    ScalarGroups(values);
    hide OfKind;
    assert Has(NumberK, values) <==> exists e <- values :: e.Float?;
  }

  /** The branches built from a position on, in order and each at its place. */
  ghost predicate BuiltFrom(values: seq<Json>, i: nat, branches: seq<Schema>) {
    && InPlaces(branches)
    && (forall b <- branches :: i <= Rank(b) < |ORDER| && BuiltAt(values, Rank(b), b))
    && (forall rank: nat | i <= rank < |ORDER| && Calls(values, rank) :: HasPlace(branches, rank))
  }

  lemma OneMoreBuilt(values: seq<Json>, i: nat, first: Schema, rest: seq<Schema>)
    requires i < |ORDER| && BuiltFrom(values, i + 1, rest) && Rank(first) == i && BuiltAt(values, i, first)
    ensures BuiltFrom(values, i, [first] + rest)
  {
    hide Rank, BuiltAt, Calls;
    var all := [first] + rest;
    assert forall b <- all :: b == first || b in rest;
    assert first in all && forall b <- rest :: b in all;
    forall m, n | 0 <= m < n < |all| ensures Rank(all[m]) < Rank(all[n]) {
      assert all[n] == rest[n - 1] && (m > 0 ==> all[m] == rest[m - 1]);
    }
  }

  lemma NotCalled(values: seq<Json>, i: nat, rest: seq<Schema>)
    requires i < |ORDER| && BuiltFrom(values, i + 1, rest) && !Calls(values, i)
    ensures BuiltFrom(values, i, rest)
  {
    hide Rank, BuiltAt, Calls, HasPlace;
  }

  lemma {:induction false} BranchesBuilt(values: seq<Json>, i: nat)
    requires i <= |ORDER|
    ensures BuiltFrom(values, i, BranchesFrom(values, i))
    decreases |ORDER| - i
  {
    hide SchemaForKind, Group, Calls, BuiltAt, InPlaces, HasPlace;
    if i < |ORDER| {
      hide BuiltFrom;
      BranchesBuilt(values, i + 1);
      GroupCalled(values, i);
      var group, rest := Group(ORDER[i], values), BranchesFrom(values, i + 1);
      BoundOfSome(group, values);
      if group != [] {
        var first := SchemaForKind(ORDER[i], group);
        KindRank(ORDER[i], group, i);
        FirstBuilt(values, i, first);
        OneMoreBuilt(values, i, first, rest);
        assert BranchesFrom(values, i) == [first] + rest;
      } else {
        NotCalled(values, i, rest);
        assert BranchesFrom(values, i) == rest;
      }
    } else {
      NothingBuilt(values);
    }
  }

  lemma FirstBuilt(values: seq<Json>, i: nat, first: Schema)
    requires i < |ORDER| && Group(ORDER[i], values) != [] && first == SchemaForKind(ORDER[i], Group(ORDER[i], values))
    ensures BuiltAt(values, i, first)
  {
  }

  lemma NothingBuilt(values: seq<Json>)
    ensures BuiltFrom(values, |ORDER|, BranchesFrom(values, |ORDER|))
  {
  }

  lemma InferBranches(values: seq<Json>)
    ensures RightBranches(Infer(values), values)
    ensures forall b <- Branches(Infer(values)) :: BuiltAt(values, Rank(b), b)
  {
    hide BranchesFrom, SchemaForKind, Group, BuiltAt, Calls;
    var branches := BranchesFrom(values, 0);
    BranchesBuilt(values, 0);
    if |branches| == 1 {
      assert branches[0] in branches;
      NoUnionBuilt(values, branches[0]);
    }
    forall rank ensures Calls(values, rank) <==> HasPlace(branches, rank) {
      if b :| b in branches && Rank(b) == rank {
        BuiltIsCalled(values, b);
      }
      OnlySevenPlaces(values, rank);
    }
    assert Branches(Infer(values)) == branches;
  }

  lemma BuiltIsCalled(values: seq<Json>, b: Schema)
    requires BuiltAt(values, Rank(b), b)
    ensures Calls(values, Rank(b))
  {
    hide Calls, Group;
    GroupCalled(values, Rank(b));
  }

  lemma OnlySevenPlaces(values: seq<Json>, rank: nat)
    ensures Calls(values, rank) ==> rank < |ORDER|
  {
  }

  lemma NoUnionBuilt(values: seq<Json>, b: Schema)
    requires BuiltAt(values, Rank(b), b)
    ensures !b.AnyOf?
  {
  }

  /** Inference yields the canonical schema, at every depth. */
  lemma {:induction false} InferIsCanonical(values: seq<Json>)
    ensures Canonical(Infer(values), values)
    decreases Bound(values), 1
  {
    hide Infer, RightBranches, BuiltAt, CanonicalBranch;
    InferBranches(values);
    var s := Infer(values);
    forall b <- Branches(s) ensures CanonicalBranch(b, values) {
      BuiltIsCanonical(values, b);
    }
    if s.AnyOf? {
      assert forall i | 0 <= i < |s.branches| :: s.branches[i] in Branches(s);
    } else {
      assert s in Branches(s);
    }
  }

  lemma {:induction false} BuiltIsCanonical(values: seq<Json>, b: Schema)
    requires BuiltAt(values, Rank(b), b)
    ensures CanonicalBranch(b, values)
    decreases Bound(values), 0
  {
    hide Infer, Canonical, Group, SchemaForKind, AllItems, ValuesAt, Union, Intersection, SomeHas, AllHave;
    var kind := ORDER[Rank(b)];
    var group := Group(kind, values);
    KindRank(kind, group, Rank(b));
    BoundOfSome(group, values);
    if b.ArraySchema? {
      ArrayBuilt(values);
      if AllItems(values) != [] {
        BoundOfChildren(AllItems(values), values);
        InferIsCanonical(AllItems(values));
      }
    } else if b.ObjectSchema? {
      ObjectBuilt(values);
      forall k | k in b.properties ensures Canonical(b.properties[k], ValuesAt(k, values)) {
        BoundOfChildren(ValuesAt(k, values), values);
        InferIsCanonical(ValuesAt(k, values));
      }
    }
  }

  lemma ArrayBuilt(values: seq<Json>)
    requires Group(ArrayK, values) != []
    ensures SchemaForKind(ArrayK, Group(ArrayK, values)) ==
            ArraySchema(if AllItems(values) == [] then None else Some(Infer(AllItems(values))))
    ensures values != [] && forall c <- AllItems(values) :: exists v <- values :: IsChild(c, v)
  {
    hide Infer;
    ArraysOnly(values);
  }

  lemma ObjectBuilt(values: seq<Json>)
    requires Group(ObjectK, values) != []
    ensures
      var s := SchemaForKind(ObjectK, Group(ObjectK, values));
      && s.ObjectSchema? && (forall k :: k in s.properties <==> SomeHas(k, values))
      && (forall k :: k in s.required <==> AllHave(k, values))
      && forall k | k in s.properties :: s.properties[k] == Infer(ValuesAt(k, values))
    ensures values != [] && forall k :: forall c <- ValuesAt(k, values) :: exists v <- values :: IsChild(c, v)
  {
    hide Infer, SchemaForKind, Union, Intersection, SomeHas, AllHave, ValuesAt;
    var objects := Group(ObjectK, values);
    assert objects == OfKind(ObjectK, values) && objects[0] in objects;
    ObjectSchemaShape(objects);
    ObjectKeys(values);
    forall k ensures ValuesAt(k, objects) == ValuesAt(k, values) {
      ObjectsOnly(k, values);
    }
    forall k, c | c in ValuesAt(k, values) ensures exists v <- values :: IsChild(c, v) {
      var v :| v in values && v.Obj? && k in v.fields && v.fields[k] == c;
      assert IsChild(c, v);
    }
  }

  // ---------------------------------------------------------------- and there is no other

  ghost predicate Within(a: seq<Schema>, b: seq<Schema>) {
    forall x <- a :: HasPlace(b, Rank(x))
  }

  /** Two lists of branches in order, at the same places, have the same place at each position. */
  lemma {:induction false} SamePlaces(a: seq<Schema>, b: seq<Schema>)
    requires InPlaces(a) && InPlaces(b) && Within(a, b) && Within(b, a)
    ensures |a| == |b| && forall i | 0 <= i < |a| :: Rank(a[i]) == Rank(b[i])
  {
    hide Rank, HasPlace, Within;
    SomeInBoth(a, b);
    SomeInBoth(b, a);
    if a != [] && b != [] {
      LastIsLargest(a, b);
      LastIsLargest(b, a);
      OneLess(a, b);
      OneLess(b, a);
      SamePlaces(a[..|a| - 1], b[..|b| - 1]);
    }
  }

  lemma SomeInBoth(a: seq<Schema>, b: seq<Schema>)
    requires Within(a, b)
    ensures a != [] ==> b != []
  {
    if a != [] {
      assert a[0] in a;
    }
  }

  lemma LastIsLargest(a: seq<Schema>, b: seq<Schema>)
    requires a != [] && b != [] && InPlaces(b) && Within(a, b)
    ensures Rank(a[|a| - 1]) <= Rank(b[|b| - 1])
  {
    hide Rank;
    assert a[|a| - 1] in a;
    var y :| y in b && Rank(y) == Rank(a[|a| - 1]);
    var i :| 0 <= i < |b| && b[i] == y;
  }

  lemma OneLess(a: seq<Schema>, b: seq<Schema>)
    requires a != [] && b != [] && Rank(a[|a| - 1]) == Rank(b[|b| - 1]) && InPlaces(a) && Within(a, b)
    ensures Within(a[..|a| - 1], b[..|b| - 1])
  {
    hide Rank;
    forall x <- a[..|a| - 1] ensures HasPlace(b[..|b| - 1], Rank(x)) {
      var i :| 0 <= i < |a| - 1 && a[i] == x;
      assert a[i] in a && Rank(a[i]) < Rank(a[|a| - 1]);
      var y :| y in b && Rank(y) == Rank(x);
      var j :| 0 <= j < |b| && b[j] == y;
      assert b[..|b| - 1][j] == y;
    }
  }

  lemma RightIsWithin(s: Schema, t: Schema, values: seq<Json>)
    requires RightBranches(s, values) && RightBranches(t, values)
    ensures Within(Branches(s), Branches(t))
  {
    hide Rank, Calls;
    forall x <- Branches(s) ensures HasPlace(Branches(t), Rank(x)) {
      assert HasPlace(Branches(s), Rank(x));
    }
  }

  /** Every branch of the right ones is at one of the seven places. */
  lemma RightPlaces(s: Schema, values: seq<Json>)
    requires RightBranches(s, values)
    ensures forall b <- Branches(s) :: Rank(b) < 7
  {
    hide Rank, InPlaces;
    forall b <- Branches(s) ensures Rank(b) < 7 {
      assert HasPlace(Branches(s), Rank(b));
      OnlySevenPlaces(values, Rank(b));
    }
  }

  lemma {:induction false} CanonicalIsUnique(s: Schema, t: Schema, values: seq<Json>)
    requires Canonical(s, values) && Canonical(t, values)
    ensures s == t
    decreases s, 1
  {
    var a, b := Branches(s), Branches(t);
    RightIsWithin(s, t, values);
    RightIsWithin(t, s, values);
    RightPlaces(s, values);
    hide Rank, Calls, CanonicalBranch, HasPlace, Within;
    SamePlaces(a, b);
    hide InPlaces;
    assert s.AnyOf? <==> |a| != 1;
    if s.AnyOf? {
      forall i | 0 <= i < |a| ensures a[i] == b[i] {
        assert a[i] in a;
        BranchIsUnique(a[i], b[i], values);
      }
    } else {
      assert a[0] == s && b[0] == t;
      BranchIsUnique(s, t, values);
    }
  }

  lemma {:induction false} BranchIsUnique(s: Schema, t: Schema, values: seq<Json>)
    requires CanonicalBranch(s, values) && CanonicalBranch(t, values) && Rank(s) == Rank(t) < 7
    ensures s == t
    decreases s, 0
  {
    hide Canonical, AllItems, ValuesAt, SomeHas, AllHave;
    if s.ArraySchema? {
      if AllItems(values) != [] {
        CanonicalIsUnique(s.element.value, t.element.value, AllItems(values));
      }
    } else if s.ObjectSchema? {
      assert s.properties.Keys == t.properties.Keys && s.required == t.required;
      forall k | k in s.properties ensures s.properties[k] == t.properties[k] {
        CanonicalIsUnique(s.properties[k], t.properties[k], ValuesAt(k, values));
      }
      assert s.properties == t.properties;
    }
  }

  /** A schema is the inferred one exactly when it is canonical for the examples. */
  lemma InferIffCanonical(s: Schema, values: seq<Json>)
    ensures s == Infer(values) <==> Canonical(s, values)
  {
    hide Infer, Canonical;
    InferIsCanonical(values);
    if Canonical(s, values) {
      CanonicalIsUnique(s, Infer(values), values);
    }
  }
}
