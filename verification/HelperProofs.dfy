/** A generated module decodes as it would with every helper there exactly when it defines those that its
    readable classes call. */
module HelperProofs {
  import opened Common
  import opened Documents
  import opened WireModel
  import opened WireCodec
  import opened WireCodecProofs
  import opened EmissionPlan
  import opened EmissionHelpers
  import opened EmissionProofs

  /** The same classes in a module that defines every helper. */
  function Full(p: Plan): Plan {
    p.(helpers := {ObjectHelper, OptionalHelper, StringHelper, NumberHelper, BoolHelper, BytesHelper, ListHelper})
  }

  lemma FullDefines(p: Plan)
    ensures forall h: Helper :: h in Full(p).helpers
    ensures forall e :: Resolve(Full(p), e) == Resolve(p, e)
  {
    forall h: Helper ensures h in Full(p).helpers {
      match h {
        case ObjectHelper =>
        case OptionalHelper =>
        case StringHelper =>
        case NumberHelper =>
        case BoolHelper =>
        case BytesHelper =>
        case ListHelper =>
      }
    }
  }

  // ---------------------------------------------------------------- a missing helper only loses values

  lemma {:induction false} DecodeLess(p: Plan, e: TypeExpr, v: Json)
    requires ScalarAliases(p.types)
    ensures Decode(p, e, v).Some? ==> Decode(Full(p), e, v) == Decode(p, e, v)
    decreases v, 10 + Rank(e)
  {
    FullDefines(p);
    match e {
      case ListT(element) =>
        if v.Arr? {
          forall i | 0 <= i < |v.items|
            ensures Decode(p, element, v.items[i]).Some? ==>
                      Decode(Full(p), element, v.items[i]) == Decode(p, element, v.items[i])
          {
            DecodeLess(p, element, v.items[i]);
          }
          if Decode(p, e, v).Some? {
            assert Decode(Full(p), e, v).value.items == Decode(p, e, v).value.items;
          }
        }
      case NullableT(inner) => DecodeLess(p, inner, v);
      case Ref(n) =>
        if n !in p.outside.external && n in p.types {
          if p.types[n].Alias? {
            DecodeLess(p, p.types[n].target, v);
          } else {
            FromWireLess(p, n, v);
          }
        }
      case _ =>
    }
  }

  lemma {:induction false} FromWireLess(p: Plan, n: string, v: Json)
    requires ScalarAliases(p.types)
    ensures FromWire(p, n, v).Some? ==> FromWire(Full(p), n, v) == FromWire(p, n, v)
    decreases v, 9
  {
    FullDefines(p);
    if n in p.types {
      match p.types[n] {
        case Record(fields) =>
          if n !in p.tagged {
            RecordLess(p, fields, v);
          } else if v.Obj? && v.fields.Keys == {p.tagged[n]} {
            RecordLess(p, fields, v.fields[p.tagged[n]]);
          }
        case Union(variants) =>
          if v.Obj? && |v.fields.Keys| == 1 {
            var tag := OnlyKey(v.fields);
            var variant := FirstWith(variants, tag, false);
            if variant.Some? && variant.value.payload.Some? {
              BodyLess(p, n, tag, variant.value.payload.value, v.fields[tag]);
            }
          }
        case _ =>
      }
    }
  }

  lemma {:induction false} RecordLess(p: Plan, fields: map<string, Field>, v: Json)
    requires ScalarAliases(p.types)
    ensures DecodeRecord(p, fields, v).Some? ==> DecodeRecord(Full(p), fields, v) == DecodeRecord(p, fields, v)
    decreases v, 5
  {
    if v.Obj? && RequiredKeys(fields) <= v.fields.Keys {
      hide Decode, PostInit, DecodeField;
      forall k | k in fields
        ensures FieldIn(p, fields[k], k, v).Some? ==> FieldIn(Full(p), fields[k], k, v) == FieldIn(p, fields[k], k, v)
      {
        FieldLess(p, fields[k], k, v);
      }
      RecordFromFields(p, fields, v);
      RecordFromFields(Full(p), fields, v);
      if DecodeRecord(p, fields, v).Some? {
        assert DecodeRecord(Full(p), fields, v).value == DecodeRecord(p, fields, v).value;
      }
    }
  }

  /** One field as construction takes it. */
  function FieldIn(p: Plan, f: Field, k: string, v: Json): Option<PyVal>
    requires ScalarAliases(p.types) && v.Obj? && (!f.optional ==> k in v.fields)
  {
    var r := DecodeField(p, f, k, v);
    if r.Some? && PostInit(p, f, r.value) then r else None
  }

  /** A record is there exactly when its keys are declared and each field is. */
  lemma RecordFromFields(p: Plan, fields: map<string, Field>, v: Json)
    requires ScalarAliases(p.types) && v.Obj? && RequiredKeys(fields) <= v.fields.Keys
    ensures DecodeRecord(p, fields, v).Some? <==>
            v.fields.Keys <= fields.Keys && forall k | k in fields :: FieldIn(p, fields[k], k, v).Some?
    ensures DecodeRecord(p, fields, v).Some? ==>
              && DecodeRecord(p, fields, v).value.Keys == fields.Keys
              && forall k | k in fields :: FieldIn(p, fields[k], k, v) == Some(DecodeRecord(p, fields, v).value[k])
  {
    hide Decode, PostInit, DecodeField;
  }

  lemma {:induction false} FieldLess(p: Plan, f: Field, k: string, v: Json)
    requires ScalarAliases(p.types) && v.Obj? && (!f.optional ==> k in v.fields)
    ensures FieldIn(p, f, k, v).Some? ==> FieldIn(Full(p), f, k, v) == FieldIn(p, f, k, v)
    decreases v, 4
  {
    FullDefines(p);
    hide Decode;
    if k in v.fields {
      DecodeLess(p, f.ty, v.fields[k]);
      DecodeLess(p, Unwrap(f.ty), v.fields[k]);
    }
  }

  lemma {:induction false} BodyLess(p: Plan, n: string, tag: string, payload: TypeExpr, body: Json)
    requires ScalarAliases(p.types)
    ensures DecodeBody(p, n, tag, payload, body).Some? ==>
              DecodeBody(Full(p), n, tag, payload, body) == DecodeBody(p, n, tag, payload, body)
    decreases body, 11 + Rank(payload)
  {
    FullDefines(p);
    hide Decode, DecodeRecord;
    if (n, tag) in p.variantFields {
      DecodeLess(p, payload, body);
    } else if payload.Ref? && payload.name in p.types && p.types[payload.name].Record? {
      RecordLess(p, p.types[payload.name].fields, body);
    }
  }

  // ---------------------------------------------------------------- nothing is lost where called helpers are there

  ghost predicate ReadsSome(p: Plan, n: string)
    requires ScalarAliases(p.types)
  {
    exists v :: FromWire(Full(p), n, v).Some?
  }

  ghost predicate ReadsBody(p: Plan, n: string, v: Variant)
    requires ScalarAliases(p.types) && v.payload.Some?
  {
    exists body :: DecodeBody(Full(p), n, v.tag, v.payload.value, body).Some?
  }

  /** What the class of a record calls is defined. */
  predicate RecordDefined(p: Plan, n: string, fields: map<string, Field>) {
    KeysHelper(fields) in p.helpers && (n in p.tagged ==> ObjectHelper in p.helpers) && FieldsDefined(p, fields)
  }

  /** What the class of a variant calls is defined. */
  predicate VariantDefined(p: Plan, n: string, v: Variant) {
    PayloadDefined(p, n, v) && (v.payload.Some? && (n, v.tag) !in p.variantFields ==> OptionalHelper in p.helpers)
  }

  ghost predicate DeclCalls(p: Plan, n: string)
    requires ScalarAliases(p.types) && n in p.types
  {
    match p.types[n]
    case Record(fields) => ReadsSome(p, n) ==> RecordDefined(p, n, fields)
    case Union(variants) =>
      forall v <- variants :: v.payload.Some? && ReadsBody(p, n, v) ==> VariantDefined(p, n, v)
    case _ => true
  }

  /** Whatever helper a class calls that reads some value is defined. */
  ghost predicate CalledDefined(p: Plan, names: set<string>)
    requires ScalarAliases(p.types)
  {
    forall n | n in names && n in p.types :: DeclCalls(p, n)
  }

  lemma {:induction false} DecodeKept(p: Plan, names: set<string>, e: TypeExpr, v: Json)
    requires Lowered(Full(p), names) && CalledDefined(p, names)
    requires GoodExpr(Full(p), names, e) && Needs(p, e) <= p.helpers && Decode(Full(p), e, v).Some?
    ensures Decode(p, e, v).Some?
    decreases v, 10 + Rank(e)
  {
    FullDefines(p);
    match e {
      case ListT(element) =>
        forall i | 0 <= i < |v.items| ensures Decode(p, element, v.items[i]).Some? {
          DecodeKept(p, names, element, v.items[i]);
        }
      case NullableT(inner) =>
        if !v.Null? {
          DecodeKept(p, names, inner, v);
        }
      case Ref(n) =>
        if n !in p.outside.external {
          if p.types[n].Alias? {
            DecodeKept(p, names, p.types[n].target, v);
          } else {
            FromWireKept(p, names, n, v);
          }
        }
      case _ =>
    }
  }

  lemma {:induction false} FromWireKept(p: Plan, names: set<string>, n: string, v: Json)
    requires Lowered(Full(p), names) && CalledDefined(p, names) && n in names && FromWire(Full(p), n, v).Some?
    ensures FromWire(p, n, v).Some?
    decreases v, 9
  {
    FullDefines(p);
    match p.types[n] {
      case Record(fields) =>
        assert ReadsSome(p, n);
        if n !in p.tagged {
          RecordKept(p, names, fields, v);
        } else {
          RecordKept(p, names, fields, v.fields[p.tagged[n]]);
        }
      case Union(variants) =>
        if !v.Str? {
          var tag := OnlyKey(v.fields);
          var variant := FirstWith(variants, tag, false).value;
          FirstIsMember(variants, tag, false);
          BodyKept(p, names, n, variant, v.fields[tag]);
        }
      case _ =>
    }
  }

  lemma {:induction false} RecordKept(p: Plan, names: set<string>, fields: map<string, Field>, v: Json)
    requires Lowered(Full(p), names) && CalledDefined(p, names) && GoodFields(Full(p), names, fields)
    requires FieldsDefined(p, fields) && DecodeRecord(Full(p), fields, v).Some?
    ensures DecodeRecord(p, fields, v).Some?
    decreases v, 5
  {
    assert ScalarAliases(p.types);
    hide Lowered, CalledDefined, GoodExpr, Decode, PostInit, DecodeField, FieldIn, Needs;
    RecordFromFields(Full(p), fields, v);
    forall k | k in fields ensures FieldIn(p, fields[k], k, v).Some? {
      FieldKept(p, names, fields[k], k, v);
    }
    RecordFromFields(p, fields, v);
  }

  lemma {:induction false} FieldKept(p: Plan, names: set<string>, f: Field, k: string, v: Json)
    requires Lowered(Full(p), names) && CalledDefined(p, names) && GoodExpr(Full(p), names, f.ty)
    requires v.Obj? && (!f.optional ==> k in v.fields) && Needs(p, f.ty) <= p.helpers
    requires FieldIn(Full(p), f, k, v).Some?
    ensures FieldIn(p, f, k, v).Some?
    decreases v, 4
  {
    FullDefines(p);
    CheckNeeds(p, f.ty);
    InnerGood(Full(p), names, f.ty);
    hide Decode, Lowered, CalledDefined, GoodExpr;
    if !f.optional {
      DecodeKept(p, names, f.ty, v.fields[k]);
      DecodeLess(p, f.ty, v.fields[k]);
    } else if k in v.fields && !v.fields[k].Null? {
      DecodeKept(p, names, Unwrap(f.ty), v.fields[k]);
      DecodeLess(p, Unwrap(f.ty), v.fields[k]);
    }
  }

  /** The bound a check needs comes with the helper the decoder calls. */
  lemma CheckNeeds(p: Plan, ty: TypeExpr)
    ensures Needs(p, Unwrap(ty)) == Needs(p, ty)
    ensures Resolve(p, Unwrap(ty)).U64? ==> NumberHelper in Needs(p, ty)
  {
  }

  lemma {:induction false} BodyKept(p: Plan, names: set<string>, n: string, variant: Variant, body: Json)
    requires Lowered(Full(p), names) && CalledDefined(p, names) && n in names && p.types[n].Union?
    requires variant in p.types[n].variants && variant.payload.Some?
    requires DecodeBody(Full(p), n, variant.tag, variant.payload.value, body).Some?
    ensures DecodeBody(p, n, variant.tag, variant.payload.value, body).Some?
    decreases body, 11 + Rank(variant.payload.value)
  {
    FullDefines(p);
    var e := variant.payload.value;
    assert GoodVariant(Full(p), names, n, variant) && ReadsBody(p, n, variant);
    assert VariantDefined(p, n, variant);
    if (n, variant.tag) in p.variantFields {
      CheckNeeds(p, e);
      DecodeKept(p, names, e, body);
      DecodeLess(p, e, body);
    } else {
      RecordKept(p, names, p.types[e.name].fields, body);
    }
  }

  // ---------------------------------------------------------------- a value that calls what is missing

  function Spaces(n: nat): string {
    seq(n, i requires 0 <= i < n => ' ')
  }

  function LeafSample(e: TypeExpr): Json {
    if e.StringT? then Str(if e.minLength.Some? then Spaces(e.minLength.value) else "")
    else if e.U64? then Int(0)
    else if e.BoolT? then Bool(false)
    else Arr([])
  }

  /** A value whose decoding calls every helper an expression needs, and one no check turns down. */
  function Sample(p: Plan, e: TypeExpr): Json {
    match e
    case ListT(element) => if Needs(p, element) == {} then Arr([]) else Arr([Sample(p, element)])
    case NullableT(inner) => Sample(p, inner)
    case _ => LeafSample(Resolve(p, e))
  }

  lemma {:induction false} SampleReads(p: Plan, e: TypeExpr)
    requires ScalarAliases(p.types) && Needs(p, e) != {}
    ensures var r := Decode(Full(p), e, Sample(p, e)); r.Some? && !r.value.PyNone?
    ensures
      var f := Field(false, e);
      !Sample(p, e).Null? && PostInit(Full(p), f, Decode(Full(p), e, Sample(p, e)).value)
    ensures !(Needs(p, e) <= p.helpers) ==> Decode(p, e, Sample(p, e)).None?
  {
    FullDefines(p);
    match e {
      case ListT(element) =>
        if Needs(p, element) != {} {
          SampleReads(p, element);
          assert Sample(p, e).items[0] == Sample(p, element);
        }
      case NullableT(inner) => SampleReads(p, inner);
      case Ref(n) =>
        assert Decode(p, e, Sample(p, e)) == Decode(p, Resolve(p, e), Sample(p, e));
        assert Decode(Full(p), e, Sample(p, e)) == Decode(Full(p), Resolve(p, e), Sample(p, e));
      case _ =>
    }
  }

  lemma SampleField(p: Plan, f: Field, k: string, v: Json)
    requires ScalarAliases(p.types) && Needs(p, f.ty) != {}
    requires v.Obj? && k in v.fields && v.fields[k] == Sample(p, f.ty)
    ensures FieldIn(Full(p), f, k, v).Some?
    ensures !(Needs(p, f.ty) <= p.helpers) ==> FieldIn(p, f, k, v).None?
  {
    FullDefines(p);
    SampleReads(p, f.ty);
    SampleReads(p, Unwrap(f.ty));
    hide Decode, Needs;
  }

  /** A field of a readable record that calls a missing helper: put its sample there. */
  lemma MissingInRecord(p: Plan, fields: map<string, Field>, v: Json, k: string) returns (w: Json)
    requires ScalarAliases(p.types) && DecodeRecord(Full(p), fields, v).Some?
    requires k in fields && !(Needs(p, fields[k].ty) <= p.helpers)
    ensures DecodeRecord(Full(p), fields, w).Some? && DecodeRecord(p, fields, w).None?
  {
    w := Obj(v.fields[k := Sample(p, fields[k].ty)]);
    hide Decode, Needs, FieldIn, Sample;
    RecordFromFields(Full(p), fields, v);
    RecordFromFields(Full(p), fields, w);
    RecordFromFields(p, fields, w);
    SampleField(p, fields[k], k, w);
    forall j | j in fields ensures FieldIn(Full(p), fields[j], j, w).Some? {
      if j != k {
        SameField(Full(p), fields[j], j, v, w);
      }
    }
  }

  lemma SameField(p: Plan, f: Field, k: string, v: Json, w: Json)
    requires ScalarAliases(p.types) && v.Obj? && w.Obj? && (!f.optional ==> k in v.fields)
    requires (k in v.fields <==> k in w.fields) && (k in v.fields ==> w.fields[k] == v.fields[k])
    ensures FieldIn(p, f, k, w) == FieldIn(p, f, k, v)
  {
    hide Decode, PostInit;
  }

  /** What is decoded is what a module with every helper decodes. */
  ghost predicate DecodesAlike(p: Plan, names: set<string>)
    requires ScalarAliases(p.types)
  {
    forall n, v | n in names :: FromWire(p, n, v) == FromWire(Full(p), n, v)
  }

  /** A record's body as its class takes it, inside the tag if the class carries one. */
  function Framed(p: Plan, n: string, body: Json): Json {
    if n in p.tagged then Obj(map[p.tagged[n] := body]) else body
  }

  lemma FramedRecord(p: Plan, n: string, body: Json)
    requires ScalarAliases(p.types) && n in p.types && p.types[n].Record?
    requires KeysHelper(p.types[n].fields) in p.helpers && (n in p.tagged ==> ObjectHelper in p.helpers)
    ensures FromWire(p, n, Framed(p, n, body)).Some? <==> DecodeRecord(p, p.types[n].fields, body).Some?
  {
    hide DecodeRecord;
    assert n in p.tagged ==> Framed(p, n, body).fields.Keys == {p.tagged[n]};
  }

  lemma AlikeCallsRecord(p: Plan, names: set<string>, n: string)
    requires Lowered(Full(p), names) && DecodesAlike(p, names) && n in names && p.types[n].Record? && ReadsSome(p, n)
    ensures RecordDefined(p, n, p.types[n].fields)
  {
    var fields := p.types[n].fields;
    var v :| FromWire(Full(p), n, v).Some?;
    assert FromWire(p, n, v).Some?;
    var body := if n in p.tagged then v.fields[p.tagged[n]] else v;
    FullDefines(p);
    assert DecodeRecord(Full(p), fields, body).Some? && KeysHelper(fields) in p.helpers;
    hide FromWire, Lowered, DecodeRecord, Needs, Framed;
    forall k | k in fields ensures Needs(p, fields[k].ty) <= p.helpers {
      if !(Needs(p, fields[k].ty) <= p.helpers) {
        var w := MissingInRecord(p, fields, body, k);
        FramedRecord(p, n, w);
        FramedRecord(Full(p), n, w);
        SameFrame(p, n, w);
        assert false;
      }
    }
  }

  lemma SameFrame(p: Plan, n: string, body: Json)
    ensures Framed(Full(p), n, body) == Framed(p, n, body)
  {
  }

  lemma {:induction false} FirstIsIt(variants: seq<Variant>, v: Variant)
    requires DistinctTags(variants) && v in variants && v.payload.Some?
    ensures FirstWith(variants, v.tag, false) == Some(v)
  {
    if variants[0] != v {
      var i :| 0 <= i < |variants| && variants[i] == v;
      assert variants[1..][i - 1] == v;
      FirstIsIt(variants[1..], v);
    }
  }

  /** A variant's body is decoded alike if whole values are. */
  lemma AlikeBody(p: Plan, names: set<string>, n: string, v: Variant, body: Json)
    requires Lowered(Full(p), names) && DecodesAlike(p, names) && n in names && p.types[n].Union?
    requires v in p.types[n].variants && v.payload.Some?
    ensures DecodeBody(p, n, v.tag, v.payload.value, body).Some? <==>
            DecodeBody(Full(p), n, v.tag, v.payload.value, body).Some?
  {
    var w := Obj(map[v.tag := body]);
    assert w.fields.Keys == {v.tag} && OnlyKey(w.fields) == v.tag;
    FirstIsIt(p.types[n].variants, v);
    hide DecodeBody, Lowered;
    assert FromWire(p, n, w) == FromWire(Full(p), n, w);
    assert |w.fields.Keys| == 1 && w.fields[v.tag] == body;
    assert DecodeUnion(p, n, p.types[n].variants, w).Some? <==> DecodeBody(p, n, v.tag, v.payload.value, body).Some?;
    assert DecodeUnion(Full(p), n, p.types[n].variants, w).Some? <==>
           DecodeBody(Full(p), n, v.tag, v.payload.value, body).Some?;
  }

  lemma AlikeCallsVariant(p: Plan, names: set<string>, n: string, v: Variant)
    requires Lowered(Full(p), names) && DecodesAlike(p, names) && n in names && p.types[n].Union?
    requires v in p.types[n].variants && v.payload.Some? && ReadsBody(p, n, v)
    ensures VariantDefined(p, n, v)
  {
    var e := v.payload.value;
    var body :| DecodeBody(Full(p), n, v.tag, e, body).Some?;
    FullDefines(p);
    AlikeBody(p, names, n, v, body);
    if (n, v.tag) in p.variantFields {
      if !(Needs(p, e) <= p.helpers) {
        AlikeBody(p, names, n, v, Sample(p, e));
        SampleReads(p, e);
        assert false;
      }
    } else {
      hide Needs, DecodeRecord, Lowered, Sample;
      var fields := p.types[e.name].fields;
      forall k | k in fields ensures Needs(p, fields[k].ty) <= p.helpers {
        if !(Needs(p, fields[k].ty) <= p.helpers) {
          var w := MissingInRecord(p, fields, body, k);
          AlikeBody(p, names, n, v, w);
          assert false;
        }
      }
    }
  }

  /** A module decodes as one with every helper exactly when it defines each helper that a class calls which
      reads some value. */
  lemma DecodesAlikeIff(p: Plan, names: set<string>)
    requires Lowered(Full(p), names)
    ensures DecodesAlike(p, names) <==> CalledDefined(p, names)
  {
    assert ScalarAliases(p.types);
    hide Lowered, FromWire, RecordDefined, VariantDefined, ReadsSome, ReadsBody;
    if CalledDefined(p, names) {
      forall n, v | n in names ensures FromWire(p, n, v) == FromWire(Full(p), n, v) {
        FromWireLess(p, n, v);
        if FromWire(Full(p), n, v).Some? {
          FromWireKept(p, names, n, v);
        }
      }
    }
    if DecodesAlike(p, names) {
      forall n | n in names && n in p.types ensures DeclCalls(p, n) {
        match p.types[n] {
          case Record(fields) =>
            if ReadsSome(p, n) {
              AlikeCallsRecord(p, names, n);
            }
          case Union(variants) =>
            forall v | v in variants && v.payload.Some? && ReadsBody(p, n, v) ensures VariantDefined(p, n, v) {
              AlikeCallsVariant(p, names, n, v);
            }
          case _ =>
        }
      }
    }
  }

  // ---------------------------------------------------------------- the guard a surface can be held to

  ghost predicate DeclReads(p: Plan, n: string)
    requires ScalarAliases(p.types) && n in p.types
  {
    match p.types[n]
    case Record(_) => ReadsSome(p, n)
    case Union(variants) => forall v <- variants :: v.payload.Some? ==> ReadsBody(p, n, v)
    case _ => true
  }

  lemma DeclCallsDefined(p: Plan, t: Target, names: set<string>, n: string)
    requires KeysDefined(p, names, Bodies(p.types, t)) && p.variantFields == t.variantFields && Allowed(p.types, t)
    requires n in names && n in p.types && ScalarAliases(p.types)
    ensures DeclDefined(p, n) ==> DeclCalls(p, n)
    ensures DeclCalls(p, n) && DeclReads(p, n) ==> DeclDefined(p, n)
  {
    hide ReadsSome, ReadsBody, Needs, DeclRefs;
    if p.types[n].Union? {
      forall v | v in p.types[n].variants && v.payload.Some? && (n, v.tag) !in t.variantFields
        ensures Bodies(p.types, t) != {}
      {
        assert VariantFits(p.types, t, n, v) && v.payload.value.name in Bodies(p.types, t);
      }
    }
  }

  /** What a rendered module decodes is what it would with every helper there if each class finds its helpers
      defined, and, where every class and payload reads some value, only then. */
  lemma RendersAlikeIff(p: Plan, t: Target, order: seq<string>, reachable: set<string>, names: set<string>)
    requires Renders(p, t, order, reachable, names) && CodecOf(p, t, names) && ScalarAliases(p.types)
    requires forall n <- names :: p.types[n].Union? ==> DistinctTags(p.types[n].variants)
    ensures
      var classes := Classes(p.types, names);
      && (DecodesAlike(p, classes) <==> CalledDefined(p, classes))
      && (HelpersDefined(p, classes) ==> DecodesAlike(p, classes))
      && ((forall n <- classes :: DeclReads(p, n)) ==> (DecodesAlike(p, classes) <==> HelpersDefined(p, classes)))
  {
    var classes := Classes(p.types, names);
    FullIsLowered(p, t, order, reachable, names);
    DecodesAlikeIff(p, classes);
    KeysAreEmitted(p, names, Bodies(p.types, t));
    hide DecodesAlike, DeclDefined, DeclCalls, DeclReads, Lowered, KeysDefined, Bodies, EmittedHelpers;
    forall n | n in classes
      ensures DeclDefined(p, n) ==> DeclCalls(p, n)
      ensures DeclCalls(p, n) && DeclReads(p, n) ==> DeclDefined(p, n)
    {
      DeclCallsDefined(p, t, names, n);
    }
  }

  lemma FullIsLowered(p: Plan, t: Target, order: seq<string>, reachable: set<string>, names: set<string>)
    requires Renders(p, t, order, reachable, names) && ScalarAliases(p.types)
    requires forall n <- names :: p.types[n].Union? ==> DistinctTags(p.types[n].variants)
    ensures Lowered(Full(p), Classes(p.types, names))
  {
    FullDefines(p);
    assert Renders(Full(p), t, order, reachable, names) by {
      hide Emits, Lowerable, PlanClosed, Bodies;
    }
    assert AllDefined(Full(p), t, names) by {
      hide Bodies, Needs;
    }
    hide Renders, AllDefined, Lowered;
    PlanIsLowered(Full(p), t, order, reachable, names);
  }
}
