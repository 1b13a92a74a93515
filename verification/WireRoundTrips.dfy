/** Re-encoding what was decoded, and decoding what was encoded. */
module WireRoundTrips {
  import opened Common
  import opened Documents
  import opened WireModel
  import opened WireCodec
  import opened WireCodecProofs

  // ---------------------------------------------------------------- wire to value to wire

  /** Only null decodes to None. */
  lemma {:induction false} OnlyNullIsNone(p: Plan, e: TypeExpr, v: Json)
    requires ScalarAliases(p.types) && Decode(p, e, v) == Some(PyNone)
    ensures v.Null?
    decreases Rank(e)
  {
    if e.NullableT? && !v.Null? {
      OnlyNullIsNone(p, e.inner, v);
    } else if e.Ref? && Resolve(p, e) != e {
      assert Decode(p, e, v) == Decode(p, Resolve(p, e), v);
    } else if e.Ref? && e.name !in p.outside.external {
      assert Decode(p, e, v) == FromWire(p, e.name, v);
      InstancesAreNotNone(p, e.name, v);
    }
  }

  lemma InstancesAreNotNone(p: Plan, n: string, v: Json)
    requires ScalarAliases(p.types)
    ensures FromWire(p, n, v) != Some(PyNone)
  {
    hide Decode, DecodeRecord, DecodeBody;
    if n in p.types && p.types[n].Union? {
      assert DecodeUnion(p, n, p.types[n].variants, v) != Some(PyNone);
    }
  }

  /** What decodes re-encodes to the value it came from, less the explicit nulls of optional keys. */
  lemma {:induction false} ReencodeExact(p: Plan, names: set<string>, e: TypeExpr, v: Json)
    requires Lowered(p, names) && GoodExpr(p, names, e) && Decode(p, e, v).Some?
    ensures Encode(p, e, Decode(p, e, v).value) == Norm(p, e, v)
    decreases v, 10 + Rank(e), 0
  {
    var x := Decode(p, e, v).value;
    match e {
      case StringT(_, _, _) =>
      case U64 =>
      case BoolT =>
      case BytesT => assert Encode(p, e, x).items == v.items;
      case ListT(element) =>
        forall i | 0 <= i < |v.items|
          ensures Encode(p, element, x.items[i]) == Norm(p, element, v.items[i])
        {
          ReencodeExact(p, names, element, v.items[i]);
        }
        assert Encode(p, e, x).items == Norm(p, e, v).items;
      case NullableT(inner) =>
        if !v.Null? {
          ReencodeExact(p, names, inner, v);
          if x.PyNone? {
            OnlyNullIsNone(p, inner, v);
          }
        }
      case Ref(n) =>
        if n in p.outside.external {
        } else if p.types[n].Alias? {
          ReencodeExact(p, names, p.types[n].target, v);
        } else {
          ReencodeWire(p, names, n, v);
        }
    }
  }

  lemma {:induction false} ReencodeWire(p: Plan, names: set<string>, n: string, v: Json)
    requires Lowered(p, names) && n in names && n !in p.tagged && FromWire(p, n, v).Some?
    ensures ToWire(p, FromWire(p, n, v).value) == Norm(p, Ref(n), v)
    decreases v, 9
  {
    match p.types[n] {
      case Enum(_) =>
      case Record(fields) => ReencodeRecord(p, names, fields, v, FromWire(p, n, v).value);
      case Union(variants) => ReencodeUnion(p, names, n, v);
    }
  }

  /** A field's value is left out if its key is absent or dropped, and written in normal form otherwise. */
  predicate FieldReencodes(p: Plan, f: Field, k: string, v: Json, x: PyVal)
    requires ScalarAliases(p.types) && v.Obj?
  {
    if f.optional && (k !in v.fields || v.fields[k].Null?) then x.PyNone?
    else k in v.fields && (f.optional ==> !x.PyNone?) && Encode(p, f.ty, x) == Norm(p, f.ty, v.fields[k])
  }

  lemma {:induction false} ReencodeField(p: Plan, names: set<string>, f: Field, k: string, v: Json)
    requires Lowered(p, names) && GoodExpr(p, names, f.ty)
    requires v.Obj? && (!f.optional ==> k in v.fields) && DecodeField(p, f, k, v).Some?
    ensures FieldReencodes(p, f, k, v, DecodeField(p, f, k, v).value)
    decreases v, 4
  {
    if !f.optional {
      ReencodeExact(p, names, f.ty, v.fields[k]);
    } else if k in v.fields && !v.fields[k].Null? {
      var inner := Unwrap(f.ty);
      ReencodeExact(p, names, inner, v.fields[k]);
      if Decode(p, inner, v.fields[k]).value.PyNone? {
        OnlyNullIsNone(p, inner, v.fields[k]);
      }
    }
  }

  lemma {:induction false} ReencodeRecord(p: Plan, names: set<string>, fields: map<string, Field>, v: Json, x: PyVal)
    requires Lowered(p, names) && GoodFields(p, names, fields)
    requires DecodeRecord(p, fields, v).Some? && Values(x) == DecodeRecord(p, fields, v).value
    ensures EncodeRecord(p, fields, x) == NormRecord(p, fields, v)
    decreases v, 5
  {
    assert ScalarAliases(p.types);
    hide Lowered, GoodExpr, PostInit, Encode, Norm, FieldReencodes;
    forall k | k in fields ensures FieldReencodes(p, fields[k], k, v, Values(x)[k]) {
      ReencodeField(p, names, fields[k], k, v);
    }
    RecordReencodes(p, fields, v, x);
  }

  lemma RecordReencodes(p: Plan, fields: map<string, Field>, v: Json, x: PyVal)
    requires ScalarAliases(p.types) && v.Obj? && v.fields.Keys <= fields.Keys && Values(x).Keys == fields.Keys
    requires forall k | k in fields :: FieldReencodes(p, fields[k], k, v, Values(x)[k])
    ensures EncodeRecord(p, fields, x) == NormRecord(p, fields, v)
  {
    hide Encode, Norm;
    assert EncodeRecord(p, fields, x).fields == NormRecord(p, fields, v).fields;
  }

  lemma {:induction false} TagsDiffer(variants: seq<Variant>, tag: string)
    requires DistinctTags(variants) && FirstWith(variants, tag, true).Some?
    ensures FirstWith(variants, tag, false).None?
  {
    FirstIsMember(variants, tag, true);
    if FirstWith(variants, tag, false).Some? {
      FirstIsMember(variants, tag, false);
    }
  }

  lemma {:induction false} ReencodeUnion(p: Plan, names: set<string>, n: string, v: Json)
    requires Lowered(p, names) && n in names && p.types[n].Union?
    requires DecodeUnion(p, n, p.types[n].variants, v).Some?
    ensures ToWire(p, DecodeUnion(p, n, p.types[n].variants, v).value) == NormUnion(p, p.types[n].variants, v)
    decreases v, 8
  {
    var variants := p.types[n].variants;
    if v.Str? {
      TagsDiffer(variants, v.s);
    } else {
      var tag := OnlyKey(v.fields);
      FirstIsMember(variants, tag, false);
      var variant, x := FirstWith(variants, tag, false).value, DecodeUnion(p, n, variants, v).value;
      ReencodeBody(p, names, n, variant, v.fields[tag], x);
    }
  }

  lemma {:induction false} ReencodeBody(p: Plan, names: set<string>, n: string, variant: Variant, body: Json, x: PyVal)
    requires Lowered(p, names) && n in names && p.types[n].Union?
    requires variant in p.types[n].variants && variant.payload.Some?
    requires DecodeBody(p, n, variant.tag, variant.payload.value, body).Some?
    requires Values(x) == DecodeBody(p, n, variant.tag, variant.payload.value, body).value
    ensures EncodeBody(p, n, variant.tag, variant.payload.value, x) == Norm(p, variant.payload.value, body)
    decreases body, 10 + Rank(variant.payload.value), 3
  {
    assert GoodVariant(p, names, n, variant);
    var e := variant.payload.value;
    hide Lowered, GoodFields, GoodExpr, Encode, EncodeRecord, Decode, DecodeRecord, NormRecord, PostInit;
    if (n, variant.tag) in p.variantFields {
      hide Norm;
      ReencodeExact(p, names, e, body);
    } else {
      assert Norm(p, e, body) == NormRecord(p, p.types[e.name].fields, body);
      hide Norm;
      ReencodeRecord(p, names, p.types[e.name].fields, body, x);
    }
  }

  // ---------------------------------------------------------------- value to wire to value

  /** Values the generated classes can be built with. */
  ghost predicate HasType(p: Plan, e: TypeExpr, x: PyVal)
    requires ScalarAliases(p.types)
    decreases x, 10 + Rank(e), 0
  {
    match e
    case StringT(_, _, _) => x.PyStr?
    case U64 => x.PyInt?
    case BoolT => x.PyBool?
    case BytesT => x.PyBytes? && forall i | 0 <= i < |x.bytes| :: 0 <= x.bytes[i] <= 255
    case ListT(element) => x.PyList? && forall i | 0 <= i < |x.items| :: HasType(p, element, x.items[i])
    case NullableT(inner) => x.PyNone? || HasType(p, inner, x)
    case Ref(n) =>
      if n in p.outside.external then x.PyExternal? && x.ty == n && p.outside.accepts(n, x.json)
      else if n in p.types && p.types[n].Alias? then HasType(p, p.types[n].target, x)
      else IsInstance(p, n, x)
  }

  ghost predicate IsInstance(p: Plan, n: string, x: PyVal)
    requires ScalarAliases(p.types)
    decreases x, 9
  {
    n in p.types &&
    match p.types[n]
    case Enum(values) => x.PyEnum? && x.ty == n && x.wire in values
    case Record(fields) => x.PyRecord? && x.ty == n && HasFields(p, fields, x)
    case Union(variants) =>
      && x.PyVariant? && x.ty == n
      && (if FirstWith(variants, x.tag, true).Some? then x.fields == map[]
          else
            var variant := FirstWith(variants, x.tag, false);
            variant.Some? && variant.value.payload.Some? && HasBody(p, n, x.tag, variant.value.payload.value, x))
    case _ => false
  }

  ghost predicate FieldTyped(p: Plan, f: Field, x: PyVal)
    requires ScalarAliases(p.types)
    decreases x, 10 + Rank(f.ty), 1
  {
    PostInit(p, f, x) && ((f.optional && x.PyNone?) || HasType(p, f.ty, x))
  }

  ghost predicate HasFields(p: Plan, fields: map<string, Field>, x: PyVal)
    requires ScalarAliases(p.types)
    decreases x, 7
  {
    Values(x).Keys == fields.Keys && forall k | k in fields && k in Values(x) :: FieldTyped(p, fields[k], Values(x)[k])
  }

  ghost predicate HasBody(p: Plan, n: string, tag: string, payload: TypeExpr, x: PyVal)
    requires ScalarAliases(p.types)
    decreases x, 8
  {
    if (n, tag) in p.variantFields then
      var name := p.variantFields[(n, tag)];
      Values(x).Keys == {name} && FieldTyped(p, Field(false, payload), Values(x)[name])
    else
      payload.Ref? && payload.name in p.types && p.types[payload.name].Record? &&
      HasFields(p, p.types[payload.name].fields, x)
  }

  /** An external type that can be written as null. */
  predicate MayBeNull(p: Plan, e: TypeExpr) {
    e.Ref? && e.name in p.outside.external && p.outside.accepts(e.name, Null)
  }

  /** Where null means absence, nothing else is written as null. */
  predicate NullIsAbsence(p: Plan, e: TypeExpr) {
    match e
    case ListT(element) => NullIsAbsence(p, element)
    case NullableT(inner) => !MayBeNull(p, inner) && NullIsAbsence(p, inner)
    case _ => true
  }

  predicate FieldsApart(p: Plan, fields: map<string, Field>) {
    forall k | k in fields :: NullIsAbsence(p, fields[k].ty) && (fields[k].optional ==> !MayBeNull(p, fields[k].ty))
  }

  /** The same for all that the declarations hold: fields, kept payloads, and the fields of inlined records. */
  ghost predicate AllApart(p: Plan, names: set<string>) {
    forall n | n in names && n in p.types ::
      match p.types[n]
      case Record(fields) => FieldsApart(p, fields)
      case Union(variants) => forall v <- variants :: v.payload.Some? ==> BodyApart(p, n, v.tag, v.payload.value)
      case _ => true
  }

  predicate BodyApart(p: Plan, n: string, tag: string, payload: TypeExpr) {
    if (n, tag) in p.variantFields then NullIsAbsence(p, payload)
    else payload.Ref? && payload.name in p.types && p.types[payload.name].Record? ==>
           FieldsApart(p, p.types[payload.name].fields)
  }

  /** The condition is exact where it bites: a nullable external type round-trips on all its values exactly when
      it never writes null itself. */
  lemma NullableExternalRoundTripsIff(p: Plan, n: string)
    requires ScalarAliases(p.types) && n in p.outside.external
    ensures (forall x | HasType(p, NullableT(Ref(n)), x) ::
               Decode(p, NullableT(Ref(n)), Encode(p, NullableT(Ref(n)), x)) == Some(x)) <==>
            NullIsAbsence(p, NullableT(Ref(n)))
  {
    var e := NullableT(Ref(n));
    if p.outside.accepts(n, Null) {
      var x := PyExternal(n, Null);
      assert HasType(p, Ref(n), x) && HasType(p, e, x) && Encode(p, Ref(n), x) == Null;
      assert Decode(p, e, Encode(p, e, x)) != Some(x);
    } else {
      forall x | HasType(p, e, x) ensures Decode(p, e, Encode(p, e, x)) == Some(x) {
        if !x.PyNone? {
          assert HasType(p, Ref(n), x) && x == PyExternal(n, x.json) && Encode(p, Ref(n), x) == x.json;
          assert Decode(p, Ref(n), x.json) == Some(x);
        }
      }
    }
  }

  lemma {:induction false} OnlyNoneIsNull(p: Plan, names: set<string>, e: TypeExpr, x: PyVal)
    requires Lowered(p, names) && GoodExpr(p, names, e) && NullIsAbsence(p, e) && !MayBeNull(p, e) && HasType(p, e, x)
    ensures Encode(p, e, x).Null? <==> x.PyNone?
    decreases Rank(e)
  {
    if e.NullableT? && !x.PyNone? {
      OnlyNoneIsNull(p, names, e.inner, x);
    } else if e.Ref? && Resolve(p, e) != e {
      var target := Resolve(p, e);
      assert HasType(p, target, x) && Encode(p, e, x) == Encode(p, target, x);
    } else if e.Ref? && e.name !in p.outside.external {
      assert IsInstance(p, e.name, x) && Encode(p, e, x) == ToWire(p, x);
      InstancesAreNotNull(p, e.name, x);
    }
  }

  lemma InstancesAreNotNull(p: Plan, n: string, x: PyVal)
    requires ScalarAliases(p.types) && IsInstance(p, n, x)
    ensures !x.PyNone? && !ToWire(p, x).Null?
  {
    hide Encode, EncodeBody, HasBody, HasFields;
  }

  /** What the encoder writes for a well-typed value decodes to that value. */
  lemma {:induction false} DecodeEncoded(p: Plan, names: set<string>, e: TypeExpr, x: PyVal)
    requires Lowered(p, names) && GoodExpr(p, names, e) && AllApart(p, names) && NullIsAbsence(p, e) && HasType(p, e, x)
    ensures Decode(p, e, Encode(p, e, x)) == Some(x)
    decreases x, 10 + Rank(e)
  {
    var v := Encode(p, e, x);
    match e {
      case StringT(_, _, _) =>
      case U64 =>
      case BoolT =>
      case BytesT =>
        assert forall i | 0 <= i < |v.items| :: IsByte(v.items[i]) && v.items[i].n == x.bytes[i];
        assert Decode(p, e, v).value.bytes == x.bytes;
      case ListT(element) =>
        forall i | 0 <= i < |x.items| ensures Decode(p, element, v.items[i]) == Some(x.items[i]) {
          DecodeEncoded(p, names, element, x.items[i]);
        }
        assert Decode(p, e, v).value.items == x.items;
      case NullableT(inner) =>
        if !x.PyNone? {
          DecodeEncoded(p, names, inner, x);
          OnlyNoneIsNull(p, names, inner, x);
        }
      case Ref(n) =>
        if n in p.outside.external {
        } else if p.types[n].Alias? {
          DecodeEncoded(p, names, p.types[n].target, x);
        } else {
          DecodeToWire(p, names, n, x);
        }
    }
  }

  lemma {:induction false} DecodeToWire(p: Plan, names: set<string>, n: string, x: PyVal)
    requires Lowered(p, names) && n in names && n !in p.tagged && AllApart(p, names) && IsInstance(p, n, x)
    ensures FromWire(p, n, ToWire(p, x)) == Some(x)
    decreases x, 9
  {
    match p.types[n] {
      case Enum(_) =>
      case Record(fields) => RecordRoundTrip(p, names, fields, x);
      case Union(variants) => UnionRoundTrip(p, names, n, x);
    }
  }

  lemma {:induction false} RecordRoundTrip(p: Plan, names: set<string>, fields: map<string, Field>, x: PyVal)
    requires Lowered(p, names) && GoodFields(p, names, fields) && AllApart(p, names) && FieldsApart(p, fields)
    requires HasFields(p, fields, x)
    ensures DecodeRecord(p, fields, EncodeRecord(p, fields, x)) == Some(Values(x))
    decreases x, 7
  {
    assert ScalarAliases(p.types);
    hide Lowered, GoodExpr, PostInit, Encode, Decode, HasType;
    var v := EncodeRecord(p, fields, x);
    assert RequiredKeys(fields) <= v.fields.Keys <= fields.Keys;
    forall k | k in fields
      ensures DecodeField(p, fields[k], k, v) == Some(Values(x)[k]) && PostInit(p, fields[k], Values(x)[k])
    {
      FieldRoundTrip(p, names, fields, k, x);
    }
    assert DecodeRecord(p, fields, v).value == Values(x);
  }

  lemma {:induction false} FieldRoundTrip(p: Plan, names: set<string>, fields: map<string, Field>, k: string, x: PyVal)
    requires Lowered(p, names) && GoodFields(p, names, fields) && AllApart(p, names) && FieldsApart(p, fields)
    requires HasFields(p, fields, x)
    requires k in fields
    ensures RequiredKeys(fields) <= EncodeRecord(p, fields, x).fields.Keys
    ensures DecodeField(p, fields[k], k, EncodeRecord(p, fields, x)) == Some(Values(x)[k])
    decreases x, 6
  {
    var f, y := fields[k], Values(x)[k];
    assert FieldTyped(p, f, y);
    if !(f.optional && y.PyNone?) {
      DecodeEncoded(p, names, f.ty, y);
      if f.optional {
        OnlyNoneIsNull(p, names, f.ty, y);
      }
    }
  }

  lemma {:induction false} UnionRoundTrip(p: Plan, names: set<string>, n: string, x: PyVal)
    requires Lowered(p, names) && n in names && p.types[n].Union? && AllApart(p, names) && IsInstance(p, n, x)
    ensures DecodeUnion(p, n, p.types[n].variants, ToWire(p, x)) == Some(x)
    decreases x, 8, 1
  {
    var variants := p.types[n].variants;
    if FirstWith(variants, x.tag, true).Some? {
      TagsDiffer(variants, x.tag);
    } else {
      FirstIsMember(variants, x.tag, false);
      var variant := FirstWith(variants, x.tag, false).value;
      assert GoodVariant(p, names, n, variant);
      BodyRoundTrip(p, names, n, x.tag, variant.payload.value, x);
      var v := ToWire(p, x);
      assert v.fields.Keys == {x.tag} && OnlyKey(v.fields) == x.tag;
    }
  }

  lemma {:induction false} BodyRoundTrip(p: Plan, names: set<string>, n: string, tag: string, payload: TypeExpr,
                                         x: PyVal)
    requires Lowered(p, names) && GoodVariant(p, names, n, Variant(tag, Some(payload)))
    requires AllApart(p, names) && BodyApart(p, n, tag, payload)
    requires x.PyVariant? && HasBody(p, n, tag, payload, x)
    ensures DecodeBody(p, n, tag, payload, EncodeBody(p, n, tag, payload, x)) == Some(Values(x))
    decreases x, 8, 0
  {
    if (n, tag) in p.variantFields {
      var name := p.variantFields[(n, tag)];
      DecodeEncoded(p, names, payload, Values(x)[name]);
      assert Values(x) == map[name := Values(x)[name]];
    } else {
      RecordRoundTrip(p, names, p.types[payload.name].fields, x);
    }
  }

  // ---------------------------------------------------------------- decoded values are well typed

  lemma {:induction false} DecodedIsTyped(p: Plan, names: set<string>, e: TypeExpr, v: Json)
    requires Lowered(p, names) && GoodExpr(p, names, e) && Decode(p, e, v).Some?
    ensures HasType(p, e, Decode(p, e, v).value)
    decreases v, 10 + Rank(e), 0
  {
    match e {
      case StringT(_, _, _) =>
      case U64 =>
      case BoolT =>
      case BytesT =>
      case ListT(element) =>
        forall i | 0 <= i < |v.items| ensures HasType(p, element, Decode(p, element, v.items[i]).value) {
          DecodedIsTyped(p, names, element, v.items[i]);
        }
      case NullableT(inner) =>
        if !v.Null? {
          DecodedIsTyped(p, names, inner, v);
        }
      case Ref(n) =>
        if n in p.outside.external {
        } else if p.types[n].Alias? {
          DecodedIsTyped(p, names, p.types[n].target, v);
        } else {
          DecodedIsInstance(p, names, n, v);
        }
    }
  }

  lemma {:induction false} DecodedIsInstance(p: Plan, names: set<string>, n: string, v: Json)
    requires Lowered(p, names) && n in names && n !in p.tagged && FromWire(p, n, v).Some?
    ensures IsInstance(p, n, FromWire(p, n, v).value)
    decreases v, 9
  {
    match p.types[n] {
      case Enum(_) =>
      case Record(fields) => DecodedHasFields(p, names, fields, v, FromWire(p, n, v).value);
      case Union(variants) =>
        if v.Str? {
        } else {
          var tag := OnlyKey(v.fields);
          FirstIsMember(variants, tag, false);
          var variant := FirstWith(variants, tag, false).value;
          assert GoodVariant(p, names, n, variant);
          if FirstWith(variants, tag, true).Some? {
            TagsDiffer(variants, tag);
          }
          DecodedHasBody(p, names, n, tag, variant.payload.value, v.fields[tag], FromWire(p, n, v).value);
        }
    }
  }

  lemma {:induction false} DecodedHasFields(p: Plan, names: set<string>, fields: map<string, Field>, v: Json, x: PyVal)
    requires Lowered(p, names) && GoodFields(p, names, fields)
    requires DecodeRecord(p, fields, v).Some? && Values(x) == DecodeRecord(p, fields, v).value
    ensures HasFields(p, fields, x)
    decreases v, 5
  {
    assert ScalarAliases(p.types);
    forall k | k in fields ensures FieldTyped(p, fields[k], Values(x)[k]) {
      hide Lowered, GoodExpr, PostInit;
      var f := fields[k];
      assert Values(x)[k] == DecodeField(p, f, k, v).value;
      if !f.optional {
        DecodedIsTyped(p, names, f.ty, v.fields[k]);
      } else if k in v.fields && !v.fields[k].Null? {
        InnerGood(p, names, f.ty);
        DecodedIsTyped(p, names, Unwrap(f.ty), v.fields[k]);
      }
    }
  }

  lemma {:induction false} DecodedHasBody(p: Plan, names: set<string>, n: string, tag: string, payload: TypeExpr,
                                          body: Json, x: PyVal)
    requires Lowered(p, names) && GoodVariant(p, names, n, Variant(tag, Some(payload)))
    requires DecodeBody(p, n, tag, payload, body).Some? && Values(x) == DecodeBody(p, n, tag, payload, body).value
    ensures HasBody(p, n, tag, payload, x)
    decreases body, 10 + Rank(payload), 1
  {
    if (n, tag) in p.variantFields {
      DecodedIsTyped(p, names, payload, body);
    } else {
      DecodedHasFields(p, names, p.types[payload.name].fields, body, x);
    }
  }
}
