/** The generated codec against the reference reading: same values accepted once explicit nulls of
    optional keys are dropped, and both round trips. */
module WireCodecProofs {
  import opened Documents
  import opened WireModel
  import opened WireCodec

  predicate Reads(p: Plan, e: TypeExpr, v: Json)
    requires ScalarAliases(p.types)
  {
    Accepts(p.types, p.outside, e, v)
  }

  // ---------------------------------------------------------------- the normal form of a wire value

  predicate Dropped(fields: map<string, Field>, k: string, v: Json) {
    k in fields && fields[k].optional && v.Null?
  }

  /** The value without the optional keys that hold an explicit null, wherever a record is read. */
  function Norm(p: Plan, e: TypeExpr, v: Json): Json
    decreases v, 10 + Rank(e)
  {
    match e
    case ListT(element) =>
      if v.Arr? then Arr(seq(|v.items|, i requires 0 <= i < |v.items| => Norm(p, element, v.items[i]))) else v
    case NullableT(inner) => if v.Null? then v else Norm(p, inner, v)
    case Ref(n) =>
      if n in p.outside.external || n !in p.types then v
      else
        (match p.types[n]
         case Record(fields) => NormRecord(p, fields, v)
         case Union(variants) => NormUnion(p, variants, v)
         case _ => v)
    case _ => v
  }

  function NormRecord(p: Plan, fields: map<string, Field>, v: Json): Json
    decreases v, 5
  {
    if !v.Obj? then v
    else
      Obj(map k | k in v.fields && !Dropped(fields, k, v.fields[k]) ::
            if k in fields then Norm(p, fields[k].ty, v.fields[k]) else v.fields[k])
  }

  function NormUnion(p: Plan, variants: seq<Variant>, v: Json): Json
    decreases v, 5
  {
    if v.Obj? && |v.fields.Keys| == 1 then
      var tag := OnlyKey(v.fields);
      var variant := FirstWith(variants, tag, false);
      if variant.None? || variant.value.payload.None? then v
      else Obj(map[tag := Norm(p, variant.value.payload.value, v.fields[tag])])
    else v
  }

  // ---------------------------------------------------------------- what is lowered

  /** No string carries a maximum length or a pattern, and the helper is defined. */
  predicate GoodLeaf(p: Plan, e: TypeExpr) {
    match e
    case StringT(_, maxLength, pattern) => maxLength.None? && pattern.None? && StringHelper in p.helpers
    case U64 => NumberHelper in p.helpers
    case BoolT => BoolHelper in p.helpers
    case BytesT => BytesHelper in p.helpers
    case _ => true
  }

  /** Every reference stays among `names` or is external, none is to a record that carries a tag, and what
      is read here, through aliases too, has its helpers. */
  ghost predicate GoodExpr(p: Plan, names: set<string>, e: TypeExpr) {
    match e
    case ListT(element) => ListHelper in p.helpers && GoodExpr(p, names, element)
    case NullableT(inner) => GoodExpr(p, names, inner)
    case Ref(n) => n in p.outside.external || (n in names && n !in p.tagged && GoodLeaf(p, Resolve(p, e)))
    case _ => GoodLeaf(p, e)
  }

  ghost predicate GoodFields(p: Plan, names: set<string>, fields: map<string, Field>) {
    forall k <- fields :: GoodExpr(p, names, fields[k].ty)
  }

  ghost predicate GoodVariant(p: Plan, names: set<string>, n: string, v: Variant) {
    v.payload.Some? ==>
      if (n, v.tag) in p.variantFields then GoodExpr(p, names, v.payload.value)
      else
        var e := v.payload.value;
        && OptionalHelper in p.helpers
        && e.Ref? && e.name !in p.outside.external && e.name in p.types && p.types[e.name].Record?
        && GoodFields(p, names, p.types[e.name].fields)
  }

  /** The declarations a target emits, closed under what they reference. */
  ghost predicate Lowered(p: Plan, names: set<string>) {
    && ScalarAliases(p.types)
    && forall n <- names ::
         && n in p.types && n !in p.outside.external
         && match p.types[n]
            case Alias(_) => true
            case Enum(_) => true
            case Record(fields) =>
              && GoodFields(p, names, fields) && KeysHelper(fields) in p.helpers
              && (n in p.tagged ==> ObjectHelper in p.helpers)
            case Union(variants) => DistinctTags(variants) && forall v <- variants :: GoodVariant(p, names, n, v)
            case Envelope(_, _) => false
  }

  // ---------------------------------------------------------------- where constraints are checked

  /** No value range or length limit applies anywhere inside, through lists and nullables. */
  predicate Unconstrained(p: Plan, e: TypeExpr) {
    match e
    case U64 => false
    case StringT(minLength, _, _) => minLength.None? || minLength.value == 0
    case ListT(element) => Unconstrained(p, element)
    case NullableT(inner) => Unconstrained(p, inner)
    case Ref(_) =>
      (match Resolve(p, e)
       case U64 => false
       case StringT(minLength, _, _) => minLength.None? || minLength.value == 0
       case _ => true)
    case _ => true
  }

  /** A field whose only constraint, if any, sits where construction checks it. */
  predicate Checked(p: Plan, ty: TypeExpr) {
    IsScalar(Resolve(p, Unwrap(ty))) || Unconstrained(p, Unwrap(ty))
  }

  ghost predicate AllChecked(p: Plan, names: set<string>) {
    forall n | n in names && n in p.types ::
      match p.types[n]
      case Record(fields) => forall k <- fields :: Checked(p, fields[k].ty)
      case Union(variants) => forall v <- variants :: v.payload.Some? ==>
        if (n, v.tag) in p.variantFields then Checked(p, v.payload.value)
        else
          var e := v.payload.value;
          e.Ref? && e.name in p.types && p.types[e.name].Record? ==>
            forall k <- p.types[e.name].fields :: Checked(p, p.types[e.name].fields[k].ty)
      case _ => true
  }

  // ---------------------------------------------------------------- acceptance

  lemma {:induction false} NormNull(p: Plan, e: TypeExpr, v: Json)
    ensures Norm(p, e, v).Null? <==> v.Null?
    decreases Rank(e)
  {
    if e.NullableT? {
      NormNull(p, e.inner, v);
    }
  }

  lemma ScalarExact(p: Plan, names: set<string>, e: TypeExpr, v: Json)
    requires Lowered(p, names) && GoodExpr(p, names, e) && IsScalar(Resolve(p, e))
    ensures Norm(p, e, v) == v
    ensures Decode(p, e, v).Some? && PostInit(p, Field(false, e), Decode(p, e, v).value) <==> Reads(p, e, v)
    ensures Decode(p, e, v).Some? ==> !Decode(p, e, v).value.PyNone?
  {
    if e.Ref? {
      var target := p.types[e.name].target;
      assert Decode(p, e, v) == Decode(p, target, v) && Reads(p, e, v) == Reads(p, target, v);
    }
  }

  lemma {:induction false} UnionReads(p: Plan, variants: seq<Variant>, v: Json)
    requires ScalarAliases(p.types)
    ensures AcceptsUnion(p.types, p.outside, variants, v) <==>
      if v.Str? then FirstWith(variants, v.s, true).Some?
      else
        && v.Obj? && |v.fields.Keys| == 1
        && var tag := OnlyKey(v.fields);
           var variant := FirstWith(variants, tag, false);
           variant.Some? && variant.value.payload.Some? && Reads(p, variant.value.payload.value, v.fields[tag])
    decreases |variants|
  {
    hide Accepts;
    if variants != [] {
      UnionReads(p, variants[1..], v);
      assert v.Obj? && v.fields.Keys == {variants[0].tag} ==> OnlyKey(v.fields) == variants[0].tag;
    }
  }

  // Decoding recurses from types into values and back; so do the lemmas that follow it.

  /** Decoding accepts what the reference accepts, for types that need no check at construction. */
  lemma {:induction false} DecodeExact(p: Plan, names: set<string>, e: TypeExpr, v: Json)
    requires Lowered(p, names) && AllChecked(p, names) && GoodExpr(p, names, e) && Unconstrained(p, e)
    ensures Decode(p, e, v).Some? <==> Reads(p, e, Norm(p, e, v))
    decreases v, 10 + Rank(e), 0
  {
    match e {
      case StringT(_, _, _) =>
      case U64 =>
      case BoolT =>
      case BytesT =>
      case ListT(element) =>
        if v.Arr? {
          forall i | 0 <= i < |v.items|
            ensures Decode(p, element, v.items[i]).Some? <==> Reads(p, element, Norm(p, element, v.items[i]))
          {
            DecodeExact(p, names, element, v.items[i]);
          }
          assert forall i | 0 <= i < |v.items| :: Norm(p, e, v).items[i] == Norm(p, element, v.items[i]);
        }
      case NullableT(inner) =>
        if !v.Null? {
          DecodeExact(p, names, inner, v);
          NormNull(p, inner, v);
        }
      case Ref(n) =>
        if n in p.outside.external {
        } else if p.types[n].Alias? {
          DecodeExact(p, names, p.types[n].target, v);
        } else {
          FromWireExact(p, names, n, v);
        }
    }
  }

  /** A generated enum, record or union accepts exactly what the reference reads, after dropping. */
  lemma {:induction false} FromWireExact(p: Plan, names: set<string>, n: string, v: Json)
    requires Lowered(p, names) && AllChecked(p, names) && n in names && n !in p.tagged && !p.types[n].Alias?
    ensures FromWire(p, n, v).Some? <==> Reads(p, Ref(n), Norm(p, Ref(n), v))
    decreases v, 9
  {
    match p.types[n] {
      case Enum(_) =>
      case Record(fields) => RecordExact(p, names, fields, v);
      case Union(variants) => UnionExact(p, names, n, v);
    }
  }

  /** A value that is not null, decoded past one nullable and checked at construction. */
  lemma {:induction false} PresentExact(p: Plan, names: set<string>, f: Field, v: Json)
    requires Lowered(p, names) && AllChecked(p, names) && GoodExpr(p, names, f.ty) && Checked(p, f.ty) && !v.Null?
    ensures Decode(p, Unwrap(f.ty), v).Some? && PostInit(p, f, Decode(p, Unwrap(f.ty), v).value) <==>
            Reads(p, f.ty, Norm(p, f.ty, v))
    decreases v, 10 + Rank(f.ty), 1
  {
    hide Lowered, AllChecked, GoodExpr;
    var inner := Unwrap(f.ty);
    assert GoodExpr(p, names, inner) by { InnerGood(p, names, f.ty); }
    NormNull(p, inner, v);
    if IsScalar(Resolve(p, inner)) {
      ScalarExact(p, names, inner, v);
    } else {
      DecodeExact(p, names, inner, v);
    }
  }

  lemma InnerGood(p: Plan, names: set<string>, e: TypeExpr)
    requires GoodExpr(p, names, e)
    ensures GoodExpr(p, names, Unwrap(e))
  {
  }

  /** One required value, decoded and checked at construction. */
  lemma {:induction false} ValueExact(p: Plan, names: set<string>, ty: TypeExpr, v: Json)
    requires Lowered(p, names) && AllChecked(p, names) && GoodExpr(p, names, ty) && Checked(p, ty)
    ensures Decode(p, ty, v).Some? && PostInit(p, Field(false, ty), Decode(p, ty, v).value) <==>
            Reads(p, ty, Norm(p, ty, v))
    decreases v, 10 + Rank(ty), 2
  {
    hide Lowered, AllChecked, GoodExpr;
    if ty.NullableT? {
      if !v.Null? {
        PresentExact(p, names, Field(false, ty), v);
      }
    } else if IsScalar(Resolve(p, ty)) {
      ScalarExact(p, names, ty, v);
    } else {
      DecodeExact(p, names, ty, v);
    }
  }

  /** One field: decoded and checked exactly when its key is absent, dropped, or well read. */
  lemma {:induction false} FieldExact(p: Plan, names: set<string>, f: Field, k: string, v: Json)
    requires Lowered(p, names) && AllChecked(p, names) && GoodExpr(p, names, f.ty) && Checked(p, f.ty)
    requires v.Obj? && (!f.optional ==> k in v.fields)
    ensures DecodeField(p, f, k, v).Some? && PostInit(p, f, DecodeField(p, f, k, v).value) <==>
            k in v.fields ==> (f.optional && v.fields[k].Null?) || Reads(p, f.ty, Norm(p, f.ty, v.fields[k]))
    decreases v, 4
  {
    hide Lowered, AllChecked, GoodExpr;
    if !f.optional {
      ValueExact(p, names, f.ty, v.fields[k]);
    } else if k in v.fields && !v.fields[k].Null? {
      PresentExact(p, names, f, v.fields[k]);
    }
  }

  ghost predicate CheckedFields(p: Plan, fields: map<string, Field>) {
    forall k <- fields :: Checked(p, fields[k].ty)
  }

  lemma {:induction false} RecordExact(p: Plan, names: set<string>, fields: map<string, Field>, v: Json)
    requires Lowered(p, names) && AllChecked(p, names) && GoodFields(p, names, fields) && CheckedFields(p, fields)
    ensures DecodeRecord(p, fields, v).Some? <==> AcceptsRecord(p.types, p.outside, fields, NormRecord(p, fields, v))
    decreases v, 5
  {
    if v.Obj? && RequiredKeys(fields) <= v.fields.Keys {
      hide Lowered, AllChecked, GoodExpr, Checked, PostInit, DecodeField, Reads;
      forall k | k in fields
        ensures
          var f, r := fields[k], DecodeField(p, fields[k], k, v);
          r.Some? && PostInit(p, f, r.value) <==>
          k in v.fields ==> Dropped(fields, k, v.fields[k]) || Reads(p, f.ty, Norm(p, f.ty, v.fields[k]))
      {
        FieldExact(p, names, fields[k], k, v);
      }
      NormRecordReads(p, fields, v);
    }
  }

  /** Reading the normal form of a record is reading each of its kept fields in normal form. */
  lemma NormRecordReads(p: Plan, fields: map<string, Field>, v: Json)
    requires ScalarAliases(p.types) && v.Obj? && RequiredKeys(fields) <= v.fields.Keys
    ensures AcceptsRecord(p.types, p.outside, fields, NormRecord(p, fields, v)) <==>
      && v.fields.Keys <= fields.Keys
      && forall k | k in fields && k in v.fields ::
           Dropped(fields, k, v.fields[k]) || Reads(p, fields[k].ty, Norm(p, fields[k].ty, v.fields[k]))
  {
    hide Norm, Accepts;
    var w := NormRecord(p, fields, v);
    assert RequiredKeys(fields) <= w.fields.Keys;
    assert w.fields.Keys <= fields.Keys <==> v.fields.Keys <= fields.Keys;
  }

  lemma {:induction false} BodyExact(p: Plan, names: set<string>, n: string, variant: Variant, body: Json)
    requires Lowered(p, names) && AllChecked(p, names) && n in names && p.types[n].Union?
    requires variant in p.types[n].variants && variant.payload.Some?
    ensures DecodeBody(p, n, variant.tag, variant.payload.value, body).Some? <==>
            Reads(p, variant.payload.value, Norm(p, variant.payload.value, body))
    decreases body, 10 + Rank(variant.payload.value), 3
  {
    assert GoodVariant(p, names, n, variant);
    var e := variant.payload.value;
    if (n, variant.tag) in p.variantFields {
      ValueExact(p, names, e, body);
    } else {
      RecordExact(p, names, p.types[e.name].fields, body);
    }
  }

  lemma {:induction false} FirstIsMember(variants: seq<Variant>, tag: string, unit: bool)
    requires FirstWith(variants, tag, unit).Some?
    ensures var v := FirstWith(variants, tag, unit).value;
      v in variants && v.tag == tag && v.payload.None? == unit
  {
    if !(variants[0].tag == tag && variants[0].payload.None? == unit) {
      FirstIsMember(variants[1..], tag, unit);
    }
  }

  lemma {:induction false} UnionExact(p: Plan, names: set<string>, n: string, v: Json)
    requires Lowered(p, names) && AllChecked(p, names) && n in names && p.types[n].Union?
    ensures DecodeUnion(p, n, p.types[n].variants, v).Some? <==>
            AcceptsUnion(p.types, p.outside, p.types[n].variants, NormUnion(p, p.types[n].variants, v))
    decreases v, 8
  {
    var variants := p.types[n].variants;
    UnionReads(p, variants, NormUnion(p, variants, v));
    if v.Obj? && |v.fields.Keys| == 1 {
      var tag := OnlyKey(v.fields);
      var variant := FirstWith(variants, tag, false);
      if variant.Some? {
        FirstIsMember(variants, tag, false);
        BodyExact(p, names, n, variant.value, v.fields[tag]);
        var w := NormUnion(p, variants, v);
        assert w.fields.Keys == {tag} && OnlyKey(w.fields) == tag;
      }
    }
  }
}
