/** What the generated Python types do: strict decoding with construction-time checks, and encoding. */
module WireCodec {
  import opened Common
  import opened Documents
  import opened WireModel

  /** The values of the generated classes. An external value is known only by its wire form. */
  datatype PyVal =
    | PyNone
    | PyStr(s: string)
    | PyInt(n: int)
    | PyBool(b: bool)
    | PyBytes(bytes: seq<int>)
    | PyList(items: seq<PyVal>)
    | PyEnum(ty: string, wire: string)
    | PyRecord(ty: string, fields: map<string, PyVal>)
    | PyVariant(ty: string, tag: string, fields: map<string, PyVal>)
    | PyExternal(ty: string, json: Json)

  /** The functions decoders call. A module defines those its generation saw a use of; the bound that
      construction holds integers against comes with `NumberHelper`. */
  datatype Helper = ObjectHelper | OptionalHelper | StringHelper | NumberHelper | BoolHelper | BytesHelper | ListHelper

  /** One Python target. `variantFields` names the single field of a union variant whose payload is not
      flattened; `tagged` maps a record that is an envelope's body to the tag its codec carries; calling
      anything but the `helpers` fails. */
  datatype Plan = Plan(types: Types, outside: Outside, variantFields: map<(string, string), string>,
                       tagged: map<string, string>, helpers: set<Helper>)

  /** The scalar an alias stands for; an external type keeps its own codec. */
  function Resolve(p: Plan, e: TypeExpr): TypeExpr {
    if e.Ref? && e.name !in p.outside.external && e.name in p.types && p.types[e.name].Alias? then
      p.types[e.name].target
    else e
  }

  function Unwrap(e: TypeExpr): TypeExpr {
    if e.NullableT? then e.inner else e
  }

  /** The `__post_init__` check of one field. */
  predicate PostInit(p: Plan, f: Field, x: PyVal) {
    if (f.ty.NullableT? || f.optional) && x.PyNone? then true
    else
      var e := Resolve(p, Unwrap(f.ty));
      if e.U64? then NumberHelper in p.helpers && x.PyInt? && 0 <= x.n <= U64_MAX
      else if e.StringT? && e.minLength.Some? then x.PyStr? && e.minLength.value <= |x.s|
      else true
  }

  // ---------------------------------------------------------------- decoding

  function Decode(p: Plan, e: TypeExpr, v: Json): Option<PyVal>
    requires ScalarAliases(p.types)
    decreases v, 10 + Rank(e)
  {
    match e
    case StringT(_, _, _) => if StringHelper in p.helpers && v.Str? then Some(PyStr(v.s)) else None
    case U64 => if NumberHelper in p.helpers && v.Int? then Some(PyInt(v.n)) else None
    case BoolT => if BoolHelper in p.helpers && v.Bool? then Some(PyBool(v.b)) else None
    case BytesT =>
      if BytesHelper in p.helpers && v.Arr? && forall i | 0 <= i < |v.items| :: IsByte(v.items[i]) then
        Some(PyBytes(seq(|v.items|, i requires 0 <= i < |v.items| => v.items[i].n)))
      else None
    case ListT(element) =>
      if ListHelper in p.helpers && v.Arr? && forall i | 0 <= i < |v.items| :: Decode(p, element, v.items[i]).Some?
      then
        Some(PyList(seq(|v.items|, i requires 0 <= i < |v.items| => Decode(p, element, v.items[i]).value)))
      else None
    case NullableT(inner) => if v.Null? then Some(PyNone) else Decode(p, inner, v)
    case Ref(n) =>
      if n in p.outside.external then
        if p.outside.accepts(n, v) then Some(PyExternal(n, v)) else None
      else if n !in p.types then None
      else
        match p.types[n]
        case Alias(target) => Decode(p, target, v)
        case _ => FromWire(p, n, v)
  }

  /** The helper that checks the keys of a record's class. */
  function KeysHelper(fields: map<string, Field>): Helper {
    if RequiredKeys(fields) == fields.Keys then ObjectHelper else OptionalHelper
  }

  /** The `from_wire` of a generated enum, record or union. */
  function FromWire(p: Plan, n: string, v: Json): Option<PyVal>
    requires ScalarAliases(p.types)
    decreases v, 9
  {
    if n !in p.types then None
    else
      match p.types[n]
      case Enum(values) => if v.Str? && v.s in values then Some(PyEnum(n, v.s)) else None
      case Record(fields) =>
        var r :=
          if KeysHelper(fields) !in p.helpers then None
          else if n !in p.tagged then DecodeRecord(p, fields, v)
          else if ObjectHelper in p.helpers && v.Obj? && v.fields.Keys == {p.tagged[n]} then
            DecodeRecord(p, fields, v.fields[p.tagged[n]])
          else None;
        if r.None? then None else Some(PyRecord(n, r.value))
      case Union(variants) => DecodeUnion(p, n, variants, v)
      case _ => None
  }

  function DecodeField(p: Plan, f: Field, k: string, v: Json): Option<PyVal>
    requires ScalarAliases(p.types) && v.Obj? && (!f.optional ==> k in v.fields)
    decreases v, 4
  {
    if !f.optional then Decode(p, f.ty, v.fields[k])
    else if k !in v.fields || v.fields[k].Null? then Some(PyNone)
    else Decode(p, Unwrap(f.ty), v.fields[k])
  }

  /** Exactly the declared keys, each well-typed, then the construction checks. */
  function DecodeRecord(p: Plan, fields: map<string, Field>, v: Json): Option<map<string, PyVal>>
    requires ScalarAliases(p.types)
    decreases v, 5
  {
    if v.Obj? && RequiredKeys(fields) <= v.fields.Keys <= fields.Keys &&
       (forall k | k in fields ::
          DecodeField(p, fields[k], k, v).Some? && PostInit(p, fields[k], DecodeField(p, fields[k], k, v).value))
    then Some(map k | k in fields :: DecodeField(p, fields[k], k, v).value)
    else None
  }

  function FirstWith(variants: seq<Variant>, tag: string, unit: bool): Option<Variant> {
    if variants == [] then None
    else if variants[0].tag == tag && variants[0].payload.None? == unit then Some(variants[0])
    else FirstWith(variants[1..], tag, unit)
  }

  /** A unit tag, or exactly one known tag with its body. */
  function DecodeUnion(p: Plan, n: string, variants: seq<Variant>, v: Json): Option<PyVal>
    requires ScalarAliases(p.types)
    decreases v, 8
  {
    if v.Str? then
      if FirstWith(variants, v.s, true).Some? then Some(PyVariant(n, v.s, map[])) else None
    else if v.Obj? && |v.fields.Keys| == 1 then
      var tag := OnlyKey(v.fields);
      var variant := FirstWith(variants, tag, false);
      if variant.None? || variant.value.payload.None? then None
      else
        var r := DecodeBody(p, n, tag, variant.value.payload.value, v.fields[tag]);
        if r.None? then None else Some(PyVariant(n, tag, r.value))
    else None
  }

  /** The `_from_body` of one variant: one named field, or the payload record's fields inlined. */
  function DecodeBody(p: Plan, n: string, tag: string, payload: TypeExpr, body: Json): Option<map<string, PyVal>>
    requires ScalarAliases(p.types)
    decreases body, 11 + Rank(payload)
  {
    if (n, tag) in p.variantFields then
      var r := Decode(p, payload, body);
      if r.Some? && PostInit(p, Field(false, payload), r.value) then Some(map[p.variantFields[(n, tag)] := r.value])
      else None
    else if OptionalHelper in p.helpers && payload.Ref? && payload.name in p.types && p.types[payload.name].Record? then
      DecodeRecord(p, p.types[payload.name].fields, body)
    else None
  }

  // ---------------------------------------------------------------- encoding

  function Encode(p: Plan, e: TypeExpr, x: PyVal): Json
    requires ScalarAliases(p.types)
    decreases x, 10 + Rank(e)
  {
    match e
    case StringT(_, _, _) => if x.PyStr? then Str(x.s) else Null
    case U64 => if x.PyInt? then Int(x.n) else Null
    case BoolT => if x.PyBool? then Bool(x.b) else Null
    case BytesT =>
      if x.PyBytes? then Arr(seq(|x.bytes|, i requires 0 <= i < |x.bytes| => Int(x.bytes[i]))) else Null
    case ListT(element) =>
      if x.PyList? then Arr(seq(|x.items|, i requires 0 <= i < |x.items| => Encode(p, element, x.items[i]))) else Null
    case NullableT(inner) => if x.PyNone? then Null else Encode(p, inner, x)
    case Ref(n) =>
      if Resolve(p, e) != e then Encode(p, Resolve(p, e), x) else ToWire(p, x)
  }

  /** The `to_wire` of an object, by its own class. */
  function ToWire(p: Plan, x: PyVal): Json
    requires ScalarAliases(p.types)
    decreases x, 9
  {
    match x
    case PyEnum(_, wire) => Str(wire)
    case PyExternal(_, json) => json
    case PyRecord(n, values) =>
      if n in p.types && p.types[n].Record? then
        var body := EncodeRecord(p, p.types[n].fields, x);
        if n in p.tagged then Obj(map[p.tagged[n] := body]) else body
      else Null
    case PyVariant(n, tag, values) =>
      if n in p.types && p.types[n].Union? then
        var variant := FirstWith(p.types[n].variants, tag, false);
        if variant.None? || variant.value.payload.None? then Str(tag)
        else Obj(map[tag := EncodeBody(p, n, tag, variant.value.payload.value, x)])
      else Null
    case _ => Null
  }

  function Values(x: PyVal): map<string, PyVal> {
    if x.PyRecord? || x.PyVariant? then x.fields else map[]
  }

  /** Required fields always, optional ones unless they are None. */
  function EncodeRecord(p: Plan, fields: map<string, Field>, x: PyVal): Json
    requires ScalarAliases(p.types)
    decreases x, 7
  {
    Obj(map k | k in fields && k in Values(x) && !(fields[k].optional && Values(x)[k].PyNone?) ::
          Encode(p, fields[k].ty, Values(x)[k]))
  }

  function EncodeBody(p: Plan, n: string, tag: string, payload: TypeExpr, x: PyVal): Json
    requires ScalarAliases(p.types)
    decreases x, 8
  {
    if (n, tag) in p.variantFields then
      var name := p.variantFields[(n, tag)];
      if name in Values(x) then Encode(p, payload, Values(x)[name]) else Null
    else if payload.Ref? && payload.name in p.types && p.types[payload.name].Record? then
      EncodeRecord(p, p.types[payload.name].fields, x)
    else Null
  }
}
