/** Inference of a closed schema from examples, its JSON Schema meaning, and the routed schema of
    the assertion-block corpus. */
module SchemaInference {
  import opened Common
  import opened Documents

  datatype Kind = NullK | BooleanK | IntegerK | NumberK | StringK | ArrayK | ObjectK

  const ORDER := [NullK, BooleanK, IntegerK, NumberK, StringK, ArrayK, ObjectK]

  function KindOf(v: Json): Kind {
    match v
    case Null => NullK
    case Bool(_) => BooleanK
    case Int(_) => IntegerK
    case Float(_) => NumberK
    case Str(_) => StringK
    case Arr(_) => ArrayK
    case Obj(_) => ObjectK
  }

  /** The emitted schema shapes. `TypeOnly` is `{"type": kind}`; objects are always closed. */
  datatype Schema =
    | TypeOnly(kind: Kind)
    | ObjectSchema(properties: map<string, Schema>, required: set<string>)
    | ArraySchema(element: Option<Schema>)
    | AnyOf(branches: seq<Schema>)

  // ---------------------------------------------------------------- JSON Schema meaning

  /** The `type` keyword: an integer is any number with a zero fraction, a number is any number. */
  predicate HasType(kind: Kind, v: Json) {
    match kind
    case NullK => v.Null?
    case BooleanK => v.Bool?
    case IntegerK => v.Int? || (v.Float? && v.r == v.r.Floor as real)
    case NumberK => v.Int? || v.Float?
    case StringK => v.Str?
    case ArrayK => v.Arr?
    case ObjectK => v.Obj?
  }

  predicate Validates(s: Schema, v: Json)
    decreases s
  {
    match s
    case TypeOnly(kind) => HasType(kind, v)
    case ObjectSchema(properties, required) =>
      && v.Obj?
      && required <= v.fields.Keys
      && v.fields.Keys <= properties.Keys
      && (forall k | k in properties && k in v.fields :: Validates(properties[k], v.fields[k]))
    case ArraySchema(element) =>
      v.Arr? && (element.Some? ==> forall i | 0 <= i < |v.items| :: Validates(element.value, v.items[i]))
    case AnyOf(branches) => exists i | 0 <= i < |branches| :: Validates(branches[i], v)
  }

  // ---------------------------------------------------------------- nesting depth

  ghost function MaxOf(s: set<nat>): (m: nat)
    ensures forall x <- s :: x <= m
    ensures s != {} ==> m in s
  {
    if s == {} then 0
    else
      var x :| x in s;
      assert s == (s - {x}) + {x};
      if s == {x} then x
      else
        var rest := MaxOf(s - {x});
        if rest < x then x else rest
  }

  ghost function Depth(v: Json): nat
    decreases v, 1
  {
    if v.Arr? || v.Obj? then 1 + MaxOf(ChildDepths(v)) else 0
  }

  ghost function ChildDepths(v: Json): set<nat>
    decreases v, 0
  {
    match v
    case Arr(items) => set i | 0 <= i < |items| :: Depth(items[i])
    case Obj(fields) => set k | k in fields :: Depth(fields[k])
    case _ => {}
  }

  predicate IsChild(c: Json, v: Json) {
    (v.Arr? && c in v.items) || (v.Obj? && c in v.fields.Values)
  }

  lemma ChildDepth(c: Json, v: Json)
    requires IsChild(c, v)
    ensures Depth(c) < Depth(v)
  {
    if v.Arr? {
      var i :| 0 <= i < |v.items| && v.items[i] == c;
    } else {
      var k :| k in v.fields && v.fields[k] == c;
    }
    assert Depth(c) in ChildDepths(v);
  }

  ghost function Depths(values: seq<Json>): set<nat> {
    set v | v in values :: Depth(v)
  }

  /** One more than the deepest nesting among the values; zero when there are none. */
  ghost function Bound(values: seq<Json>): (bound: nat) {
    if values == [] then 0 else 1 + MaxOf(Depths(values))
  }

  lemma BoundExceeds(values: seq<Json>)
    ensures forall v <- values :: Depth(v) < Bound(values)
  {
    forall v | v in values ensures Depth(v) < Bound(values) {
      assert Depth(v) in Depths(values);
    }
  }

  lemma BoundAttained(values: seq<Json>) returns (v: Json)
    requires values != []
    ensures v in values && Bound(values) == 1 + Depth(v)
  {
    assert Depth(values[0]) in Depths(values);
    v :| v in values && Depth(v) == MaxOf(Depths(values));
  }

  lemma BoundOfSome(some: seq<Json>, values: seq<Json>)
    requires forall v <- some :: v in values
    ensures Bound(some) <= Bound(values)
  {
    if some != [] {
      var v := BoundAttained(some);
      BoundExceeds(values);
    }
  }

  lemma BoundOfChildren(children: seq<Json>, values: seq<Json>)
    requires values != [] && forall c <- children :: exists v <- values :: IsChild(c, v)
    ensures Bound(children) < Bound(values)
  {
    BoundExceeds(values);
    if children != [] {
      var c := BoundAttained(children);
      var v :| v in values && IsChild(c, v);
      ChildDepth(c, v);
    }
  }

  // ---------------------------------------------------------------- inference

  function OfKind(kind: Kind, values: seq<Json>): (r: seq<Json>)
    ensures forall v :: v in r <==> v in values && KindOf(v) == kind
  {
    if values == [] then []
    else
      var last := values[|values| - 1];
      OfKind(kind, values[..|values| - 1]) + if KindOf(last) == kind then [last] else []
  }

  /** The values a branch of this kind is inferred from: numbers absorb the integers. */
  function Group(kind: Kind, values: seq<Json>): (r: seq<Json>)
    ensures forall v <- r :: v in values && HasType(kind, v)
  {
    var own := OfKind(kind, values);
    if kind == IntegerK && OfKind(NumberK, values) != [] then []
    else if kind == NumberK && own != [] then own + OfKind(IntegerK, values)
    else own
  }

  function Union(values: seq<Json>): (r: set<string>)
    ensures forall k :: k in r <==> exists v <- values :: v.Obj? && k in v.fields
  {
    if values == [] then {}
    else
      var last := values[|values| - 1];
      Union(values[..|values| - 1]) + if last.Obj? then last.fields.Keys else {}
  }

  /** Keys every one of the objects has. */
  function Intersection(values: seq<Json>): (r: set<string>)
    requires values != [] && forall v <- values :: v.Obj?
    ensures forall k :: k in r <==> forall v <- values :: k in v.fields
  {
    var last := values[|values| - 1].fields.Keys;
    if |values| == 1 then last
    else
      assert values == values[..|values| - 1] + [values[|values| - 1]];
      Intersection(values[..|values| - 1]) * last
  }

  function ValuesAt(key: string, values: seq<Json>): (r: seq<Json>)
    ensures forall c :: c in r <==> exists v <- values :: v.Obj? && key in v.fields && v.fields[key] == c
  {
    if values == [] then []
    else
      var last := values[|values| - 1];
      ValuesAt(key, values[..|values| - 1]) + if last.Obj? && key in last.fields then [last.fields[key]] else []
  }

  function AllItems(values: seq<Json>): (r: seq<Json>)
    ensures forall c :: c in r <==> exists v <- values :: v.Arr? && c in v.items
  {
    if values == [] then []
    else
      var last := values[|values| - 1];
      AllItems(values[..|values| - 1]) + if last.Arr? then last.items else []
  }

  /** The schema of a non-empty group of one kind; a number group may also hold integers. */
  function SchemaForKind(kind: Kind, values: seq<Json>): Schema
    requires values != [] && forall v <- values :: HasType(kind, v)
    decreases Bound(values), 0
  {
    match kind
    case ObjectK =>
      assert forall v <- values :: HasType(kind, v) && v.Obj?;
      ObjectSchema(
        map k | k in Union(values) :: (BoundOfChildren(ValuesAt(k, values), values); Infer(ValuesAt(k, values))),
        Intersection(values))
    case ArrayK =>
      var items := AllItems(values);
      BoundOfChildren(items, values);
      ArraySchema(if items == [] then None else Some(Infer(items)))
    case _ => TypeOnly(kind)
  }

  /** The branches for the kinds from position `i` of the canonical order on. */
  function BranchesFrom(values: seq<Json>, i: nat): seq<Schema>
    requires i <= |ORDER|
    decreases Bound(values), 1, |ORDER| - i
  {
    if i == |ORDER| then []
    else
      var group := Group(ORDER[i], values);
      BoundOfSome(group, values);
      (if group == [] then [] else [SchemaForKind(ORDER[i], group)]) + BranchesFrom(values, i + 1)
  }

  function Infer(values: seq<Json>): Schema
    decreases Bound(values), 2
  {
    var branches := BranchesFrom(values, 0);
    if |branches| == 1 then branches[0] else AnyOf(branches)
  }
}
