/** Which helper functions a generated module defines, and which its decoders call. */
module EmissionHelpers {
  import opened Documents
  import opened WireModel
  import opened WireCodec
  import opened EmissionPlan

  /** The helpers an expression is seen to use; it is looked at as written, references included. */
  function Kinds(e: TypeExpr): set<Helper> {
    match e
    case StringT(_, _, _) => {StringHelper}
    case U64 => {NumberHelper}
    case BoolT => {BoolHelper}
    case BytesT => {BytesHelper}
    case ListT(element) => {ListHelper} + Kinds(element)
    case NullableT(inner) => Kinds(inner)
    case Ref(_) => {}
  }

  /** A field's type and, where it is itself a reference to an alias, what that stands for. */
  function FieldKinds(p: Plan, ty: TypeExpr): set<Helper> {
    Kinds(ty) + if Resolve(p, ty) != ty then Kinds(Resolve(p, ty)) else {}
  }

  function RecordKinds(p: Plan, fields: map<string, Field>): set<Helper> {
    set k, h | k in fields && h in FieldKinds(p, fields[k].ty) :: h
  }

  predicate Kept(p: Plan, n: string, v: Variant) {
    v.payload.Some? && (n, v.tag) in p.variantFields
  }

  /** Payloads kept as one field are looked at as written only. */
  function PayloadKinds(p: Plan, n: string, variants: seq<Variant>): set<Helper> {
    set v, h | v in variants && Kept(p, n, v) && h in Kinds(v.payload.value) :: h
  }

  function DeclKinds(p: Plan, n: string): set<Helper>
    requires n in p.types
  {
    match p.types[n]
    case Record(fields) => RecordKinds(p, fields)
    case Union(variants) => PayloadKinds(p, n, variants)
    case _ => {}
  }

  /** Some emitted record has, or has not, an optional field. */
  predicate AnyRecord(p: Plan, names: set<string>, keys: Helper) {
    exists n <- names :: n in p.types && p.types[n].Record? && KeysHelper(p.types[n].fields) == keys
  }

  /** What is defined beside the emitted declarations and the records flattened into variants. */
  function EmittedHelpers(p: Plan, names: set<string>, bodies: set<string>): set<Helper> {
    (set n, h | n in names + bodies && n in p.types && h in DeclKinds(p, n) :: h) +
    (if AnyRecord(p, names, ObjectHelper) || p.tagged != map[] then {ObjectHelper} else {}) +
    if AnyRecord(p, names, OptionalHelper) || bodies != {} then {OptionalHelper} else {}
  }

  /** The kinds of one record's fields. */
  method CollectFields(p: Plan, fields: map<string, Field>) returns (kinds: set<Helper>)
    ensures kinds == RecordKinds(p, fields)
  {
    kinds := {};
    var left := fields.Keys;
    while left != {}
      invariant left <= fields.Keys
      invariant forall k | k in fields && k !in left :: FieldKinds(p, fields[k].ty) <= kinds
      invariant forall h | h in kinds :: exists k | k in fields && k !in left :: h in FieldKinds(p, fields[k].ty)
      decreases left
    {
      var k :| k in left;
      var ty := fields[k].ty;
      ghost var before := kinds;
      kinds, left := kinds + Kinds(ty), left - {k};
      if Resolve(p, ty) != ty {
        kinds := kinds + Kinds(Resolve(p, ty));
      }
      assert kinds == before + FieldKinds(p, fields[k].ty);
    }
  }

  /** The kinds of one union's kept payloads. */
  method CollectPayloads(p: Plan, n: string, variants: seq<Variant>) returns (kinds: set<Helper>)
    ensures kinds == PayloadKinds(p, n, variants)
  {
    kinds := {};
    for i := 0 to |variants|
      invariant kinds == PayloadKinds(p, n, variants[..i])
    {
      var v := variants[i];
      assert forall u :: u in variants[..i + 1] <==> u in variants[..i] || u == v;
      if Kept(p, n, v) {
        kinds := kinds + Kinds(v.payload.value);
      }
    }
    assert variants[..|variants|] == variants;
  }

  function KindsAmong(p: Plan, names: seq<string>): set<Helper> {
    set n, h | n in names && n in p.types && h in DeclKinds(p, n) :: h
  }

  lemma KindsAdded(p: Plan, names: seq<string>, n: string)
    requires n in p.types
    ensures KindsAmong(p, []) == {}
    ensures KindsAmong(p, names + [n]) == KindsAmong(p, names) + DeclKinds(p, n)
  {
    hide DeclKinds;
    assert forall m :: m in names + [n] <==> m in names || m == n;
  }

  /** The records, emitted and flattened, are gone through before the unions. */
  method CollectKinds(p: Plan, records: seq<string>, unions: seq<string>) returns (kinds: set<Helper>)
    requires forall n <- records :: n in p.types && p.types[n].Record?
    requires forall n <- unions :: n in p.types && p.types[n].Union?
    ensures kinds == KindsAmong(p, records + unions)
  {
    kinds := {};
    for i := 0 to |records|
      invariant kinds == KindsAmong(p, records[..i])
    {
      assert records[..i + 1] == records[..i] + [records[i]];
      KindsAdded(p, records[..i], records[i]);
      var more := CollectFields(p, p.types[records[i]].fields);
      kinds := kinds + more;
    }
    assert records[..|records|] == records && records + unions[..0] == records;
    for i := 0 to |unions|
      invariant kinds == KindsAmong(p, records + unions[..i])
    {
      assert records + unions[..i + 1] == records + unions[..i] + [unions[i]];
      KindsAdded(p, records + unions[..i], unions[i]);
      var more := CollectPayloads(p, unions[i], p.types[unions[i]].variants);
      kinds := kinds + more;
    }
    assert unions[..|unions|] == unions;
  }

  function Only(p: Plan, names: seq<string>, record: bool): (r: seq<string>)
    ensures forall n :: n in r <==>
              n in names && n in p.types && if record then p.types[n].Record? else p.types[n].Union?
  {
    if names == [] then []
    else
      var last := names[|names| - 1];
      var wanted := last in p.types && if record then p.types[last].Record? else p.types[last].Union?;
      Only(p, names[..|names| - 1], record) + if wanted then [last] else []
  }

  method CollectHelpers(p: Plan, emitted: seq<string>, bodies: seq<string>) returns (helpers: set<Helper>)
    requires forall n <- bodies :: n in p.types && p.types[n].Record?
    ensures helpers == EmittedHelpers(p, NameSet(emitted), NameSet(bodies))
  {
    var records, unions := Only(p, emitted, true), Only(p, emitted, false);
    helpers := CollectKinds(p, records + bodies, unions);
    OnlyFieldsAndPayloads(p);
    assert helpers == KindsAmong(p, emitted + bodies) by {
      hide DeclKinds;
    }
    assert NameSet(emitted) + NameSet(bodies) == NameSet(emitted + bodies);
    if AnyRecord(p, NameSet(emitted), ObjectHelper) || p.tagged != map[] {
      helpers := helpers + {ObjectHelper};
    }
    if bodies != [] || AnyRecord(p, NameSet(emitted), OptionalHelper) {
      helpers := helpers + {OptionalHelper};
    }
    assert bodies != [] ==> bodies[0] in NameSet(bodies);
  }

  lemma OnlyFieldsAndPayloads(p: Plan)
    ensures forall n | n in p.types && !p.types[n].Record? && !p.types[n].Union? :: DeclKinds(p, n) == {}
  {
  }

  // ---------------------------------------------------------------- what decoders call

  /** The helpers the decoder of an expression calls, aliases looked through wherever they stand. */
  function Needs(p: Plan, e: TypeExpr): set<Helper> {
    match e
    case ListT(element) => {ListHelper} + Needs(p, element)
    case NullableT(inner) => Needs(p, inner)
    case Ref(_) => Kinds(Resolve(p, e))
    case _ => Kinds(e)
  }

  predicate FieldsDefined(p: Plan, fields: map<string, Field>) {
    forall k <- fields :: Needs(p, fields[k].ty) <= p.helpers
  }

  predicate PayloadDefined(p: Plan, n: string, v: Variant) {
    v.payload.Some? ==>
      if (n, v.tag) in p.variantFields then Needs(p, v.payload.value) <= p.helpers
      else
        var e := v.payload.value;
        e.Ref? && e.name in p.types && p.types[e.name].Record? ==> FieldsDefined(p, p.types[e.name].fields)
  }

  predicate DeclDefined(p: Plan, n: string)
    requires n in p.types
  {
    match p.types[n]
    case Record(fields) => FieldsDefined(p, fields)
    case Union(variants) => forall v <- variants :: PayloadDefined(p, n, v)
    case _ => true
  }

  /** Every scalar and list helper that a class calls is defined. */
  predicate HelpersDefined(p: Plan, names: set<string>) {
    forall n | n in names && n in p.types :: DeclDefined(p, n)
  }

  lemma KindsAreEmitted(p: Plan, names: set<string>, bodies: set<string>, n: string)
    requires n in names + bodies && n in p.types
    ensures DeclKinds(p, n) <= EmittedHelpers(p, names, bodies)
  {
  }

  /** Every helper that checks the keys of a class or of a flattened body is defined. */
  predicate KeysDefined(p: Plan, names: set<string>, bodies: set<string>) {
    && (forall n | n in names && n in p.types && p.types[n].Record? :: KeysHelper(p.types[n].fields) in p.helpers)
    && (p.tagged != map[] ==> ObjectHelper in p.helpers)
    && (bodies != {} ==> OptionalHelper in p.helpers)
  }

  /** Those never go missing. */
  lemma KeysAreEmitted(p: Plan, names: set<string>, bodies: set<string>)
    requires p.helpers == EmittedHelpers(p, names, bodies)
    ensures KeysDefined(p, names, bodies)
  {
    forall n | n in names && n in p.types && p.types[n].Record?
      ensures KeysHelper(p.types[n].fields) in p.helpers
    {
      assert AnyRecord(p, names, KeysHelper(p.types[n].fields));
    }
  }

  /** Reading a record calls the helper that takes a set of optional keys exactly where some field is optional. */
  lemma RecordCallsKeysHelper(p: Plan, n: string, v: Json)
    requires ScalarAliases(p.types) && n in p.types && p.types[n].Record? && FromWire(p, n, v).Some?
    ensures (exists k <- p.types[n].fields :: p.types[n].fields[k].optional) ==> OptionalHelper in p.helpers
    ensures (forall k <- p.types[n].fields :: !p.types[n].fields[k].optional) ==> ObjectHelper in p.helpers
  {
    var fields := p.types[n].fields;
    hide DecodeRecord;
    assert RequiredKeys(fields) == fields.Keys <==> forall k <- fields :: !fields[k].optional by {
      if RequiredKeys(fields) == fields.Keys {
        assert forall k <- fields :: k in RequiredKeys(fields);
      }
    }
  }
}
