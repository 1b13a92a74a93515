/** Envelope frames, and the exact place where the codec and the reference reading part ways. */
module WireEdges {
  import opened Common
  import opened Documents
  import opened WireModel
  import opened WireCodec
  import opened WireCodecProofs
  import opened WireRoundTrips

  // ---------------------------------------------------------------- frames

  /** Record `n` is the body of envelope `envelope`, and its codec carries the tag. */
  ghost predicate IsFrame(p: Plan, envelope: string, n: string) {
    && envelope in p.types && envelope !in p.outside.external
    && n in p.tagged && p.types[envelope] == Envelope(p.tagged[n], n)
    && n in p.types && p.types[n].Record? && n !in p.outside.external
  }

  function NormFrame(p: Plan, n: string, v: Json): Json
    requires n in p.tagged && n in p.types && p.types[n].Record?
  {
    var tag := p.tagged[n];
    if v.Obj? && v.fields.Keys == {tag} then Obj(map[tag := NormRecord(p, p.types[n].fields, v.fields[tag])]) else v
  }

  lemma FrameExact(p: Plan, names: set<string>, envelope: string, n: string, v: Json)
    requires Lowered(p, names) && AllChecked(p, names) && n in names && IsFrame(p, envelope, n)
    ensures FromWire(p, n, v).Some? <==> Reads(p, Ref(envelope), NormFrame(p, n, v))
  {
    var tag, fields := p.tagged[n], p.types[n].fields;
    if v.Obj? && v.fields.Keys == {tag} {
      RecordExact(p, names, fields, v.fields[tag]);
      assert Reads(p, Ref(n), NormRecord(p, fields, v.fields[tag])) ==
             AcceptsRecord(p.types, p.outside, fields, NormRecord(p, fields, v.fields[tag]));
    }
  }

  lemma FrameReencodes(p: Plan, names: set<string>, envelope: string, n: string, v: Json)
    requires Lowered(p, names) && n in names && IsFrame(p, envelope, n) && FromWire(p, n, v).Some?
    ensures ToWire(p, FromWire(p, n, v).value) == NormFrame(p, n, v)
  {
    ReencodeRecord(p, names, p.types[n].fields, v.fields[p.tagged[n]], FromWire(p, n, v).value);
  }

  lemma FrameRoundTrips(p: Plan, names: set<string>, envelope: string, n: string, x: PyVal)
    requires Lowered(p, names) && n in names && IsFrame(p, envelope, n) && AllApart(p, names) && IsInstance(p, n, x)
    ensures FromWire(p, n, ToWire(p, x)) == Some(x)
  {
    RecordRoundTrip(p, names, p.types[n].fields, x);
    assert ToWire(p, x).fields.Keys == {p.tagged[n]};
  }

  /** A reference to a record whose values can do without the tag is read as the model asks exactly when
      the record's codec carries no tag. */
  lemma TaggedReferenceAgreesIff(p: Plan, names: set<string>, n: string, v0: Json)
    requires Lowered(p, names) && AllChecked(p, names) && n in names && p.types[n].Record?
    requires Reads(p, Ref(n), Norm(p, Ref(n), v0)) && (n in p.tagged ==> v0.Obj? && v0.fields.Keys != {p.tagged[n]})
    ensures (forall v :: Decode(p, Ref(n), v).Some? <==> Reads(p, Ref(n), Norm(p, Ref(n), v))) <==> n !in p.tagged
  {
    if n in p.tagged {
      assert Decode(p, Ref(n), v0).None?;
    } else {
      forall v ensures Decode(p, Ref(n), v).Some? <==> Reads(p, Ref(n), Norm(p, Ref(n), v)) {
        FromWireExact(p, names, n, v);
      }
    }
  }

  // ---------------------------------------------------------------- unchecked constraints

  /** A value of this shape whose innermost leaf breaks the constraint found there. */
  function Breaking(p: Plan, e: TypeExpr): Json {
    match e
    case ListT(element) => Arr([Breaking(p, element)])
    case NullableT(inner) => Breaking(p, inner)
    case _ => if Resolve(p, e).U64? then Int(U64_MAX + 1) else Str("")
  }

  lemma {:induction false} BreakingIsMisread(p: Plan, names: set<string>, e: TypeExpr)
    requires Lowered(p, names) && GoodExpr(p, names, e) && !Unconstrained(p, e)
    ensures var v := Breaking(p, e);
      !v.Null? && Norm(p, e, v) == v && Decode(p, e, v).Some? && !Reads(p, e, v)
      && !Decode(p, e, v).value.PyNone?
      && (e.ListT? ==> Decode(p, e, v).value.PyList?)
  {
    var v := Breaking(p, e);
    match e {
      case ListT(element) =>
        BreakingIsMisread(p, names, element);
        assert v.items[0] == Breaking(p, element);
        assert Norm(p, e, v).items == v.items;
      case NullableT(inner) => BreakingIsMisread(p, names, inner);
      case Ref(n) => ScalarExact(p, names, e, v);
      case _ =>
    }
  }

  /** A field's part of a wire object is decoded and passes its check. */
  predicate FieldDecodes(p: Plan, f: Field, k: string, v: Json)
    requires ScalarAliases(p.types) && v.Obj? && (!f.optional ==> k in v.fields)
  {
    DecodeField(p, f, k, v).Some? && PostInit(p, f, DecodeField(p, f, k, v).value)
  }

  /** The reference takes it: absent, dropped, or well read. */
  predicate FieldReads(p: Plan, f: Field, k: string, v: Json)
    requires ScalarAliases(p.types) && v.Obj? && (!f.optional ==> k in v.fields)
  {
    k in v.fields ==> (f.optional && v.fields[k].Null?) || Reads(p, f.ty, Norm(p, f.ty, v.fields[k]))
  }

  /** A field, required or optional, is decoded as the reference reads it on every object exactly when its
      constraint, if it has one, is not buried under a list or a second nullable. */
  lemma FieldAgreesIffChecked(p: Plan, names: set<string>, f: Field, k: string)
    requires Lowered(p, names) && AllChecked(p, names) && GoodExpr(p, names, f.ty)
    ensures Checked(p, f.ty) <==>
            forall v: Json | v.Obj? && (!f.optional ==> k in v.fields) ::
              FieldDecodes(p, f, k, v) <==> FieldReads(p, f, k, v)
  {
    if Checked(p, f.ty) {
      forall v: Json | v.Obj? && (!f.optional ==> k in v.fields)
        ensures FieldDecodes(p, f, k, v) <==> FieldReads(p, f, k, v)
      {
        FieldExact(p, names, f, k, v);
      }
    } else {
      FieldIsMisread(p, names, f, k);
    }
  }

  lemma FieldIsMisread(p: Plan, names: set<string>, f: Field, k: string)
    requires Lowered(p, names) && GoodExpr(p, names, f.ty) && !Checked(p, f.ty)
    ensures var v := Obj(map[k := Breaking(p, f.ty)]); FieldDecodes(p, f, k, v) && !FieldReads(p, f, k, v)
  {
    assert !Unconstrained(p, f.ty);
    var w := Breaking(p, f.ty);
    var v := Obj(map[k := w]);
    assert k in v.fields && v.fields[k] == w;
    BreakingIsMisread(p, names, f.ty);
    var inner := Unwrap(f.ty);
    assert inner.ListT? || inner.NullableT?;
    assert Resolve(p, inner) == inner && Decode(p, inner, w) == Decode(p, f.ty, w);
    hide Decode, Reads, Norm, Lowered, GoodExpr;
    assert DecodeField(p, f, k, v) == Decode(p, f.ty, w);
  }

  // ---------------------------------------------------------------- what the generator refuses

  /** A scalar constraint anywhere inside, as written; aliases are not looked through. */
  predicate Mentions(e: TypeExpr) {
    match e
    case U64 => true
    case StringT(minLength, _, _) => minLength.Some?
    case ListT(element) => Mentions(element)
    case NullableT(inner) => Mentions(inner)
    case _ => false
  }

  /** Generation stops at a field whose list carries a constraint. */
  predicate Refused(p: Plan, f: Field) {
    var e := Resolve(p, if f.ty.NullableT? || f.optional then Unwrap(f.ty) else f.ty);
    e.ListT? && Mentions(e.element)
  }

  function Leaf(e: TypeExpr): TypeExpr {
    match e
    case ListT(element) => Leaf(element)
    case NullableT(inner) => Leaf(inner)
    case _ => e
  }

  lemma {:induction false} UnmentionedLeaf(p: Plan, e: TypeExpr)
    requires !Mentions(e) && !Unconstrained(p, e)
    ensures Leaf(e).Ref? && Resolve(p, Leaf(e)) != Leaf(e)
  {
    match e {
      case ListT(element) => UnmentionedLeaf(p, element);
      case NullableT(inner) => UnmentionedLeaf(p, inner);
      case _ =>
    }
  }

  /** Only two shapes get past the generator with a constraint nobody checks: a nullable inside a
      nullable, and a list whose innermost elements are references to a constrained alias. */
  lemma OnlyHiddenConstraintsSlipThrough(p: Plan, f: Field)
    requires !Checked(p, f.ty) && !Refused(p, f)
    ensures Unwrap(f.ty).NullableT? || (Unwrap(f.ty).ListT? && Leaf(f.ty).Ref? && Resolve(p, Leaf(f.ty)) != Leaf(f.ty))
  {
    var e := Unwrap(f.ty);
    if e.ListT? {
      assert Resolve(p, e) == e;
      UnmentionedLeaf(p, e.element);
    }
  }
}
