/** The language-neutral wire model and its strict reference reading. */
module WireModel {
  import opened Common
  import opened Documents

  datatype TypeExpr =
    | StringT(minLength: Option<nat>, maxLength: Option<nat>, pattern: Option<string>)
    | U64
    | BoolT
    | BytesT
    | ListT(element: TypeExpr)
    | NullableT(inner: TypeExpr)
    | Ref(name: string)

  datatype Field = Field(optional: bool, ty: TypeExpr)
  datatype Variant = Variant(tag: string, payload: Option<TypeExpr>)
  datatype Decl =
    | Alias(target: TypeExpr)
    | Enum(values: seq<string>)
    | Record(fields: map<string, Field>)
    | Union(variants: seq<Variant>)
    | Envelope(tag: string, body: string)

  type Types = map<string, Decl>

  /** What the model leaves to others: which strings match a pattern, and which values the
      hand-written external types take. */
  datatype Outside = Outside(external: set<string>, accepts: (string, Json) -> bool, matches: (string, string) -> bool)

  predicate IsScalar(e: TypeExpr) {
    e.StringT? || e.U64? || e.BoolT?
  }

  /** Aliases name scalars, so following one never comes back. */
  predicate ScalarAliases(types: Types) {
    forall n <- types :: types[n].Alias? ==> IsScalar(types[n].target)
  }

  function Rank(e: TypeExpr): nat {
    match e
    case NullableT(inner) => 1 + Rank(inner)
    case ListT(_) => 1
    case Ref(_) => 1
    case _ => 0
  }

  function RequiredKeys(fields: map<string, Field>): set<string> {
    set k | k in fields && !fields[k].optional
  }

  function Refs(e: TypeExpr): set<string> {
    match e
    case Ref(n) => {n}
    case NullableT(inner) => Refs(inner)
    case ListT(element) => Refs(element)
    case _ => {}
  }

  /** Every type expression a declaration carries. */
  function Exprs(d: Decl): set<TypeExpr> {
    match d
    case Record(fields) => set k | k in fields :: fields[k].ty
    case Union(variants) => set v | v in variants && v.payload.Some? :: v.payload.value
    case Alias(target) => {target}
    case _ => {}
  }

  function DeclRefs(d: Decl): set<string> {
    set e, n | e in Exprs(d) && n in Refs(e) :: n
  }

  predicate DistinctTags(variants: seq<Variant>) {
    forall i, j :: 0 <= i < j < |variants| ==> variants[i].tag != variants[j].tag
  }

  function OnlyKey<V>(m: map<string, V>): (k: string)
    requires |m.Keys| == 1
    ensures m.Keys == {k}
  {
    OneElement(m.Keys);
    var k :| k in m.Keys;
    k
  }

  lemma OneElement(s: set<string>)
    requires |s| == 1
    ensures exists k :: s == {k}
    ensures forall j, k :: j in s && k in s ==> j == k
  {
    var k :| k in s;
    assert |s - {k}| == 0;
    assert s == {k};
  }

  predicate IsByte(v: Json) {
    v.Int? && 0 <= v.n <= 255
  }

  // ---------------------------------------------------------------- the reference reading

  predicate Accepts(types: Types, o: Outside, e: TypeExpr, v: Json)
    requires ScalarAliases(types)
    decreases v, 10 + Rank(e)
  {
    match e
    case StringT(minLength, maxLength, pattern) =>
      && v.Str?
      && (minLength.Some? ==> minLength.value <= |v.s|)
      && (maxLength.Some? ==> |v.s| <= maxLength.value)
      && (pattern.Some? ==> o.matches(pattern.value, v.s))
    case U64 => v.Int? && 0 <= v.n <= U64_MAX
    case BoolT => v.Bool?
    case BytesT => v.Arr? && forall i | 0 <= i < |v.items| :: IsByte(v.items[i])
    case ListT(element) => v.Arr? && forall i | 0 <= i < |v.items| :: Accepts(types, o, element, v.items[i])
    case NullableT(inner) => v.Null? || Accepts(types, o, inner, v)
    case Ref(n) =>
      if n in o.external then o.accepts(n, v)
      else
        n in types &&
        match types[n]
        case Alias(target) => Accepts(types, o, target, v)
        case Enum(values) => v.Str? && v.s in values
        case Record(fields) => AcceptsRecord(types, o, fields, v)
        case Union(variants) => AcceptsUnion(types, o, variants, v)
        case Envelope(tag, body) =>
          v.Obj? && v.fields.Keys == {tag} && Accepts(types, o, Ref(body), v.fields[tag])
  }

  predicate AcceptsRecord(types: Types, o: Outside, fields: map<string, Field>, v: Json)
    requires ScalarAliases(types)
    decreases v, 5
  {
    && v.Obj?
    && RequiredKeys(fields) <= v.fields.Keys <= fields.Keys
    && forall k | k in v.fields && k in fields :: Accepts(types, o, fields[k].ty, v.fields[k])
  }

  /** The first variant whose shape fits decides. */
  predicate AcceptsUnion(types: Types, o: Outside, variants: seq<Variant>, v: Json)
    requires ScalarAliases(types)
    decreases v, 5, |variants|
  {
    variants != [] &&
    var first := variants[0];
    if first.payload.None? then v == Str(first.tag) || AcceptsUnion(types, o, variants[1..], v)
    else if v.Obj? && v.fields.Keys == {first.tag} then Accepts(types, o, first.payload.value, v.fields[first.tag])
    else AcceptsUnion(types, o, variants[1..], v)
  }
}
