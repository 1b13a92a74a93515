/** Which instance a decoder builds: the one that shows the document, field by field. */
module WireInstances {
  import opened Common
  import opened Documents
  import opened WireModel
  import opened WireCodec

  // ---------------------------------------------------------------- instances and documents

  /** The value holds what the document says: the same string, number, bytes, items and fields, null and absence
      as None, an external type its own wire form. */
  ghost predicate Shows(p: Plan, e: TypeExpr, v: Json, x: PyVal)
    requires ScalarAliases(p.types)
    decreases v, 10 + Rank(e)
  {
    match e
    case StringT(_, _, _) => v.Str? && x == PyStr(v.s)
    case U64 => v.Int? && x == PyInt(v.n)
    case BoolT => v.Bool? && x == PyBool(v.b)
    case BytesT => v.Arr? && x.PyBytes? && |x.bytes| == |v.items| &&
                   forall i | 0 <= i < |v.items| :: v.items[i] == Int(x.bytes[i])
    case ListT(element) => v.Arr? && x.PyList? && |x.items| == |v.items| &&
                           forall i | 0 <= i < |v.items| :: Shows(p, element, v.items[i], x.items[i])
    case NullableT(inner) => if v.Null? then x.PyNone? else Shows(p, inner, v, x)
    case Ref(n) =>
      if n in p.outside.external then x == PyExternal(n, v)
      else if n in p.types && p.types[n].Alias? then Shows(p, p.types[n].target, v, x)
      else ShowsInstance(p, n, v, x)
  }

  ghost predicate ShowsInstance(p: Plan, n: string, v: Json, x: PyVal)
    requires ScalarAliases(p.types)
    decreases v, 9
  {
    n in p.types &&
    match p.types[n]
    case Enum(_) => v.Str? && x == PyEnum(n, v.s)
    case Record(fields) =>
      && x.PyRecord? && x.ty == n
      && if n !in p.tagged then ShowsFields(p, fields, v, x.fields)
         else v.Obj? && p.tagged[n] in v.fields && ShowsFields(p, fields, v.fields[p.tagged[n]], x.fields)
    case Union(variants) =>
      && x.PyVariant? && x.ty == n
      && if v.Str? then x.tag == v.s && x.fields == map[]
         else v.Obj? && v.fields.Keys == {x.tag} && x.tag in v.fields && ShowsPayload(p, n, variants, v, x)
    case _ => false
  }

  /** The first variant of the tag that has a payload. */
  predicate FirstPayload(variants: seq<Variant>, tag: string, i: nat) {
    && i < |variants| && variants[i].tag == tag && variants[i].payload.Some?
    && forall j | 0 <= j < i :: !(variants[j].tag == tag && variants[j].payload.Some?)
  }

  ghost predicate ShowsPayload(p: Plan, n: string, variants: seq<Variant>, v: Json, x: PyVal)
    requires ScalarAliases(p.types) && x.PyVariant? && v.Obj? && x.tag in v.fields
    decreases v, 8
  {
    exists i: nat | FirstPayload(variants, x.tag, i) ::
      ShowsBody(p, n, x.tag, variants[i].payload.value, v.fields[x.tag], x.fields)
  }

  /** One named field, or the fields of the record written out. */
  ghost predicate ShowsBody(p: Plan, n: string, tag: string, payload: TypeExpr, body: Json, values: map<string, PyVal>)
    requires ScalarAliases(p.types)
    decreases body, 11 + Rank(payload)
  {
    if (n, tag) in p.variantFields then
      values.Keys == {p.variantFields[(n, tag)]} && Shows(p, payload, body, values[p.variantFields[(n, tag)]])
    else
      payload.Ref? && payload.name in p.types && p.types[payload.name].Record? &&
      ShowsFields(p, p.types[payload.name].fields, body, values)
  }

  ghost predicate ShowsFields(p: Plan, fields: map<string, Field>, v: Json, values: map<string, PyVal>)
    requires ScalarAliases(p.types)
    decreases v, 5
  {
    v.Obj? && values.Keys == fields.Keys &&
    forall k | k in fields && k in values :: ShowsField(p, fields[k], k, v, values[k])
  }

  ghost predicate ShowsField(p: Plan, f: Field, k: string, v: Json, y: PyVal)
    requires ScalarAliases(p.types) && v.Obj?
    decreases v, 4
  {
    if k !in v.fields then f.optional && y.PyNone?
    else if f.optional && v.fields[k].Null? then y.PyNone?
    else Shows(p, f.ty, v.fields[k], y)
  }

  // ---------------------------------------------------------------- decoders build what shows the document

  lemma {:induction false} DecodeShows(p: Plan, e: TypeExpr, v: Json)
    requires ScalarAliases(p.types) && Decode(p, e, v).Some?
    ensures Shows(p, e, v, Decode(p, e, v).value)
    decreases v, 10 + Rank(e)
  {
    match e {
      case ListT(element) =>
        forall i | 0 <= i < |v.items| ensures Shows(p, element, v.items[i], Decode(p, element, v.items[i]).value) {
          DecodeShows(p, element, v.items[i]);
        }
      case NullableT(inner) =>
        if !v.Null? {
          DecodeShows(p, inner, v);
        }
      case Ref(n) =>
        if n !in p.outside.external {
          if p.types[n].Alias? {
            DecodeShows(p, p.types[n].target, v);
          } else {
            FromWireShows(p, n, v);
          }
        }
      case _ =>
    }
  }

  lemma {:induction false} FromWireShows(p: Plan, n: string, v: Json)
    requires ScalarAliases(p.types) && FromWire(p, n, v).Some?
    ensures ShowsInstance(p, n, v, FromWire(p, n, v).value)
    decreases v, 9
  {
    hide DecodeRecord, DecodeUnion, ShowsFields;
    match p.types[n] {
      case Record(fields) =>
        if n in p.tagged {
          RecordShows(p, fields, v.fields[p.tagged[n]]);
        } else {
          RecordShows(p, fields, v);
        }
      case Union(variants) => UnionShows(p, n, variants, v);
      case _ =>
    }
  }

  lemma {:induction false} RecordShows(p: Plan, fields: map<string, Field>, v: Json)
    requires ScalarAliases(p.types) && DecodeRecord(p, fields, v).Some?
    ensures ShowsFields(p, fields, v, DecodeRecord(p, fields, v).value)
    decreases v, 5
  {
    hide DecodeField, PostInit, ShowsField;
    forall k | k in fields ensures ShowsField(p, fields[k], k, v, DecodeField(p, fields[k], k, v).value) {
      FieldShown(p, fields[k], k, v);
    }
  }

  lemma {:induction false} FieldShown(p: Plan, f: Field, k: string, v: Json)
    requires ScalarAliases(p.types) && v.Obj? && (!f.optional ==> k in v.fields) && DecodeField(p, f, k, v).Some?
    ensures ShowsField(p, f, k, v, DecodeField(p, f, k, v).value)
    decreases v, 4
  {
    if k in v.fields && !(f.optional && v.fields[k].Null?) {
      DecodeShows(p, if f.optional then Unwrap(f.ty) else f.ty, v.fields[k]);
    }
  }

  lemma {:induction false} FirstWithPayload(variants: seq<Variant>, tag: string) returns (i: nat)
    requires FirstWith(variants, tag, false).Some?
    ensures FirstPayload(variants, tag, i) && FirstWith(variants, tag, false) == Some(variants[i])
  {
    if variants[0].tag == tag && variants[0].payload.Some? {
      i := 0;
    } else {
      var rest := FirstWithPayload(variants[1..], tag);
      i := rest + 1;
      assert forall j | 0 < j < i :: variants[j] == variants[1..][j - 1];
    }
  }

  lemma {:induction false} UnionShows(p: Plan, n: string, variants: seq<Variant>, v: Json)
    requires ScalarAliases(p.types) && DecodeUnion(p, n, variants, v).Some? && n in p.types
    requires p.types[n] == Union(variants)
    ensures ShowsInstance(p, n, v, DecodeUnion(p, n, variants, v).value)
    decreases v, 8
  {
    hide DecodeBody, ShowsBody;
    if v.Obj? {
      var tag := OnlyKey(v.fields);
      var i := FirstWithPayload(variants, tag);
      BodyShows(p, n, tag, variants[i].payload.value, v.fields[tag]);
      assert ShowsPayload(p, n, variants, v, DecodeUnion(p, n, variants, v).value);
    }
  }

  lemma {:induction false} BodyShows(p: Plan, n: string, tag: string, payload: TypeExpr, body: Json)
    requires ScalarAliases(p.types) && DecodeBody(p, n, tag, payload, body).Some?
    ensures ShowsBody(p, n, tag, payload, body, DecodeBody(p, n, tag, payload, body).value)
    decreases body, 11 + Rank(payload)
  {
    hide Decode, DecodeRecord, Shows, ShowsFields, PostInit;
    if (n, tag) in p.variantFields {
      DecodeShows(p, payload, body);
    } else {
      RecordShows(p, p.types[payload.name].fields, body);
    }
  }

  // ---------------------------------------------------------------- and no other value does

  lemma {:induction false} ShowsOne(p: Plan, e: TypeExpr, v: Json, x: PyVal, y: PyVal)
    requires ScalarAliases(p.types) && Shows(p, e, v, x) && Shows(p, e, v, y)
    ensures x == y
    decreases v, 10 + Rank(e)
  {
    match e {
      case ListT(element) =>
        forall i | 0 <= i < |v.items| ensures x.items[i] == y.items[i] {
          ShowsOne(p, element, v.items[i], x.items[i], y.items[i]);
        }
        assert x.items == y.items;
      case BytesT =>
        forall i | 0 <= i < |v.items| ensures x.bytes[i] == y.bytes[i] {
          assert v.items[i] == Int(x.bytes[i]) == Int(y.bytes[i]);
        }
        assert x.bytes == y.bytes;
      case NullableT(inner) =>
        if !v.Null? {
          ShowsOne(p, inner, v, x, y);
        }
      case Ref(n) =>
        if n !in p.outside.external {
          if n in p.types && p.types[n].Alias? {
            ShowsOne(p, p.types[n].target, v, x, y);
          } else {
            InstanceOne(p, n, v, x, y);
          }
        }
      case _ =>
    }
  }

  lemma {:induction false} InstanceOne(p: Plan, n: string, v: Json, x: PyVal, y: PyVal)
    requires ScalarAliases(p.types) && ShowsInstance(p, n, v, x) && ShowsInstance(p, n, v, y)
    ensures x == y
    decreases v, 9
  {
    hide ShowsFields, ShowsBody;
    match p.types[n] {
      case Record(fields) =>
        FieldsOne(p, fields, if n in p.tagged then v.fields[p.tagged[n]] else v, x.fields, y.fields);
      case Union(variants) =>
        if v.Obj? {
          assert x.tag in {y.tag};
          var tag := x.tag;
          var i: nat :| FirstPayload(variants, tag, i) &&
            ShowsBody(p, n, tag, variants[i].payload.value, v.fields[tag], x.fields);
          var j: nat :| FirstPayload(variants, tag, j) &&
            ShowsBody(p, n, tag, variants[j].payload.value, v.fields[tag], y.fields);
          FirstIsOne(variants, tag, i, j);
          BodyOne(p, n, tag, variants[i].payload.value, v.fields[tag], x.fields, y.fields);
        }
      case _ =>
    }
  }

  lemma FirstIsOne(variants: seq<Variant>, tag: string, i: nat, j: nat)
    requires FirstPayload(variants, tag, i) && FirstPayload(variants, tag, j)
    ensures i == j
  {
  }

  lemma {:induction false} FieldsOne(p: Plan, fields: map<string, Field>, v: Json, a: map<string, PyVal>,
                                     b: map<string, PyVal>)
    requires ScalarAliases(p.types) && ShowsFields(p, fields, v, a) && ShowsFields(p, fields, v, b)
    ensures a == b
    decreases v, 5
  {
    hide Shows;
    forall k | k in fields ensures a[k] == b[k] {
      assert ShowsField(p, fields[k], k, v, a[k]) && ShowsField(p, fields[k], k, v, b[k]);
      if k in v.fields && !(fields[k].optional && v.fields[k].Null?) {
        ShowsOne(p, fields[k].ty, v.fields[k], a[k], b[k]);
      }
    }
    assert a == b;
  }

  lemma {:induction false} BodyOne(p: Plan, n: string, tag: string, payload: TypeExpr, body: Json,
                                   a: map<string, PyVal>, b: map<string, PyVal>)
    requires ScalarAliases(p.types)
    requires ShowsBody(p, n, tag, payload, body, a) && ShowsBody(p, n, tag, payload, body, b)
    ensures a == b
    decreases body, 11 + Rank(payload)
  {
    hide Shows, ShowsFields;
    if (n, tag) in p.variantFields {
      var name := p.variantFields[(n, tag)];
      ShowsOne(p, payload, body, a[name], b[name]);
      assert a == map[name := a[name]] && b == map[name := b[name]];
    } else {
      FieldsOne(p, p.types[payload.name].fields, body, a, b);
    }
  }

  /** What a decoder takes, it turns into the one value that shows the document. */
  lemma DecodesToExact(p: Plan, e: TypeExpr, v: Json, x: PyVal)
    requires ScalarAliases(p.types) && Decode(p, e, v).Some?
    ensures Decode(p, e, v) == Some(x) <==> Shows(p, e, v, x)
  {
    hide Decode, Shows;
    DecodeShows(p, e, v);
    if Shows(p, e, v, x) {
      ShowsOne(p, e, v, x, Decode(p, e, v).value);
    }
  }

  /** The same for the classes' own decoders. */
  lemma FromWireToExact(p: Plan, n: string, v: Json, x: PyVal)
    requires ScalarAliases(p.types) && FromWire(p, n, v).Some?
    ensures FromWire(p, n, v) == Some(x) <==> ShowsInstance(p, n, v, x)
  {
    hide FromWire, ShowsInstance;
    FromWireShows(p, n, v);
    if ShowsInstance(p, n, v, x) {
      InstanceOne(p, n, v, x, FromWire(p, n, v).value);
    }
  }
}
