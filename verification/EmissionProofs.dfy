/** What a plan guarantees: exactly when every name a generated declaration uses is there, and that the
    classes of such a plan are the ones the codec theorems are about. */
module EmissionProofs {
  import opened WireModel
  import opened WireCodec
  import opened WireCodecProofs
  import opened EmissionPlan
  import opened EmissionHelpers

  /** `names` are the declarations a target emits of a resolved model. */
  ghost predicate Emits(types: Types, t: Target, order: seq<string>, reachable: set<string>, names: set<string>) {
    Resolved(types) && Plans(types, t, order, reachable, names)
  }

  /** The target fits the surface, and `names` are what is reachable less flattened bodies and a disabled
      envelope. */
  ghost predicate Plans(types: Types, t: Target, order: seq<string>, reachable: set<string>, names: set<string>) {
    && (forall n :: n in order <==> n in types) && Allowed(types, t)
    && LeastClosed(types, t.external, RootSet(types, t, order), reachable)
    && names !! t.external
    && forall n :: n in names <==> IsEmitted(types, t, reachable, n)
  }

  // ---------------------------------------------------------------- what generated code names

  /** What one variant's class names: the types of its one field, or those of the record it inlines. */
  function VariantUses(types: Types, t: Target, n: string, v: Variant): set<string> {
    if v.payload.None? then {}
    else if (n, v.tag) in t.variantFields then Refs(v.payload.value)
    else if v.payload.value.Ref? && v.payload.value.name in types then DeclRefs(types[v.payload.value.name])
    else {}
  }

  /** What the code generated for a declaration names; an envelope is the codec of its body. */
  function Uses(types: Types, t: Target, n: string): set<string>
    requires n in types
  {
    match types[n]
    case Union(variants) => set v, r | v in variants && r in VariantUses(types, t, n, v) :: r
    case Envelope(_, body) => {body}
    case _ => DeclRefs(types[n])
  }

  /** The roots, and all that is used by what is emitted, is emitted or external. */
  ghost predicate PlanClosed(types: Types, t: Target, order: seq<string>, names: set<string>)
    requires forall n <- order :: n in types
  {
    && RootSet(types, t, order) <= names + t.external
    && forall n | n in names && n in types :: Uses(types, t, n) <= names + t.external
  }

  predicate KeepsPayload(t: Target, n: string, v: Variant) {
    v.payload.Some? && (n, v.tag) in t.variantFields
  }

  /** No record flattened away is wanted as a type: not by a payload kept as one field, not as the body of
      an emitted envelope, and not as a root, where an envelope that is not emitted puts its body. */
  ghost predicate FlattenedNotNamed(types: Types, t: Target, order: seq<string>, names: set<string>)
    requires forall n <- order :: n in types
  {
    && (forall n | n in names && n in types && types[n].Union? :: forall v <- types[n].variants ::
          KeepsPayload(t, n, v) ==> Refs(v.payload.value) !! Bodies(types, t))
    && (forall n | n in names && n in types && types[n].Envelope? :: types[n].body !in Bodies(types, t))
    && RootSet(types, t, order) !! Bodies(types, t)
  }

  lemma BodiesAreInternal(types: Types, t: Target)
    requires Allowed(types, t)
    ensures Bodies(types, t) !! t.external
    ensures forall b <- Bodies(types, t) :: b in types && types[b].Record?
  {
  }

  /** A reachable type is there as a type exactly when it was not flattened away. */
  lemma ReachedIsEmittedIff(types: Types, t: Target, order: seq<string>, reachable: set<string>, names: set<string>,
                            r: string)
    requires Emits(types, t, order, reachable, names) && r in reachable + t.external
    requires r in types && (types[r].Envelope? ==> t.envelopeOn)
    ensures r in names + t.external <==> r !in Bodies(types, t)
  {
    BodiesAreInternal(types, t);
  }

  lemma SuccessorIsReached(types: Types, t: Target, order: seq<string>, reachable: set<string>, names: set<string>,
                           n: string, r: string)
    requires Emits(types, t, order, reachable, names) && n in reachable && n in types && r in Successors(types[n])
    ensures r in reachable + t.external && r in types && !types[r].Envelope?
  {
    assert r in t.external || r in Successors(types[n]) - t.external;
  }

  /** A record a variant inlines is a plain one that uses nothing flattened. */
  lemma InlinedBody(types: Types, t: Target, n: string, v: Variant)
    requires Allowed(types, t) && n in types && types[n].Union? && v in types[n].variants && Inlines(t, n, v)
    ensures v.payload.value.Ref? && v.payload.value.name in DeclRefs(types[n])
    ensures
      var b := v.payload.value.name;
      b in Bodies(types, t) && b in types && types[b].Record? && DeclRefs(types[b]) !! Bodies(types, t)
  {
    var e := v.payload.value;
    assert VariantFits(types, t, n, v) && e in Exprs(types[n]) && e.name in Refs(e);
    assert e.name in DeclRefs(types[n]);
    hide DeclRefs;
  }

  lemma KeptUse(types: Types, t: Target, n: string, v: Variant, r: string)
    requires n in types && types[n].Union? && v in types[n].variants && KeepsPayload(t, n, v)
    requires r in Refs(v.payload.value)
    ensures r in Successors(types[n])
  {
    assert v.payload.value in Exprs(types[n]);
  }

  lemma VariantUseIsReached(types: Types, t: Target, order: seq<string>, reachable: set<string>, names: set<string>,
                            n: string, v: Variant, r: string)
    requires Emits(types, t, order, reachable, names) && n in names && types[n].Union? && v in types[n].variants
    requires r in VariantUses(types, t, n, v)
    ensures r in reachable + t.external && r in types && !types[r].Envelope?
    ensures r in Bodies(types, t) ==> KeepsPayload(t, n, v) && r in Refs(v.payload.value)
  {
    assert Emits(types, t, order, reachable, names) && n in reachable && Allowed(types, t);
    hide Emits, LeastClosed, RootSet, Allowed, Bodies, Exprs, DeclRefs, Refs;
    if KeepsPayload(t, n, v) {
      KeptUse(types, t, n, v, r);
      SuccessorIsReached(types, t, order, reachable, names, n, r);
    } else {
      var b := v.payload.value.name;
      InlinedBody(types, t, n, v);
      BodiesAreInternal(types, t);
      SuccessorIsReached(types, t, order, reachable, names, n, b);
      SuccessorIsReached(types, t, order, reachable, names, b, r);
    }
  }

  /** What an emitted declaration uses was reached; only a kept payload or an envelope's body can have been
      flattened away. */
  lemma UseIsReached(types: Types, t: Target, order: seq<string>, reachable: set<string>, names: set<string>,
                     n: string, r: string)
    requires Emits(types, t, order, reachable, names) && n in names && r in Uses(types, t, n)
    ensures r in reachable + t.external && r in types && !types[r].Envelope?
    ensures r in Bodies(types, t) ==>
              || types[n].Envelope?
              || (types[n].Union? &&
                  exists v <- types[n].variants :: KeepsPayload(t, n, v) && r in Refs(v.payload.value))
  {
    hide Bodies, DeclRefs, LeastClosed;
    if types[n].Union? {
      var v :| v in types[n].variants && r in VariantUses(types, t, n, v);
      VariantUseIsReached(types, t, order, reachable, names, n, v, r);
    } else {
      SuccessorIsReached(types, t, order, reachable, names, n, r);
    }
  }

  lemma RootIsReached(types: Types, t: Target, order: seq<string>, reachable: set<string>, names: set<string>,
                      r: string)
    requires Emits(types, t, order, reachable, names) && r in RootSet(types, t, order)
    ensures r in reachable + t.external && r in types && (types[r].Envelope? ==> t.envelopeOn)
  {
    RootKinds(types, t, order, r);
    assert r in t.external || r in RootSet(types, t, order) - t.external;
  }

  lemma {:induction false} RootKinds(types: Types, t: Target, order: seq<string>, r: string)
    requires Resolved(types) && (forall n <- order :: n in types) && r in Roots(types, t, order)
    ensures types[r].Envelope? ==> t.envelopeOn
  {
    if r in Roots(types, t, order[..|order| - 1]) {
      RootKinds(types, t, order[..|order| - 1], r);
    } else {
      var last := order[|order| - 1];
      assert types[last].Envelope? ==> types[last].body in Successors(types[last]);
    }
  }

  /** A plan names only what it emits, or what is external, exactly when no record flattened away is wanted
      as a type. */
  lemma PlanClosedIff(types: Types, t: Target, order: seq<string>, reachable: set<string>, names: set<string>)
    requires Emits(types, t, order, reachable, names)
    ensures PlanClosed(types, t, order, names) <==> FlattenedNotNamed(types, t, order, names)
  {
    hide LeastClosed, Allowed, Bodies, DeclRefs, Uses, RootSet;
    forall r | r in RootSet(types, t, order) ensures r in names + t.external <==> r !in Bodies(types, t) {
      RootIsReached(types, t, order, reachable, names, r);
      ReachedIsEmittedIff(types, t, order, reachable, names, r);
    }
    forall n, r | n in names && r in Uses(types, t, n)
      ensures r in names + t.external <==> r !in Bodies(types, t)
    {
      UseIsReached(types, t, order, reachable, names, n, r);
      ReachedIsEmittedIff(types, t, order, reachable, names, r);
    }
    if FlattenedNotNamed(types, t, order, names) {
      forall n, r | n in names && r in Uses(types, t, n) ensures r !in Bodies(types, t) {
        UseIsReached(types, t, order, reachable, names, n, r);
        EnvelopeUses(types, t, n);
      }
    }
    if PlanClosed(types, t, order, names) {
      forall n | n in names && types[n].Envelope? ensures types[n].body !in Bodies(types, t) {
        EnvelopeUses(types, t, n);
      }
      forall n, v | n in names && types[n].Union? && v in types[n].variants && KeepsPayload(t, n, v)
        ensures Refs(v.payload.value) !! Bodies(types, t)
      {
        KeptUses(types, t, n, v);
      }
    }
  }

  lemma EnvelopeUses(types: Types, t: Target, n: string)
    requires n in types
    ensures types[n].Envelope? ==> Uses(types, t, n) == {types[n].body}
  {
  }

  lemma KeptUses(types: Types, t: Target, n: string, v: Variant)
    requires n in types && types[n].Union? && v in types[n].variants && KeepsPayload(t, n, v)
    ensures Refs(v.payload.value) <= Uses(types, t, n)
  {
    forall r | r in Refs(v.payload.value) ensures r in Uses(types, t, n) {
      assert r in VariantUses(types, t, n, v);
    }
  }

  // ---------------------------------------------------------------- the plan and the codec

  lemma {:induction false} GoodFromParts(p: Plan, names: set<string>, e: TypeExpr)
    requires ScalarAliases(p.types) && Lowerable(p.types, names)
    requires PlainStrings(e) && Needs(p, e) <= p.helpers && Refs(e) <= names + p.outside.external
    requires Refs(e) - p.outside.external !! p.tagged.Keys
    ensures GoodExpr(p, names, e)
  {
    match e {
      case ListT(element) => GoodFromParts(p, names, element);
      case NullableT(inner) => GoodFromParts(p, names, inner);
      case Ref(n) =>
        assert n in Refs(e);
        if Resolve(p, e) != e {
          assert Resolve(p, e) in Exprs(p.types[n]);
        }
      case _ =>
    }
  }

  /** The codec a target generates from a plan, with the helpers generation sees a use of. */
  ghost predicate CodecOf(p: Plan, t: Target, names: set<string>) {
    ClassesOf(p, t, names) && p.helpers == EmittedHelpers(p, names, Bodies(p.types, t))
  }

  /** Its classes: an emitted envelope's tag goes to its body's. */
  ghost predicate ClassesOf(p: Plan, t: Target, names: set<string>) {
    && p.outside.external == t.external && p.variantFields == t.variantFields
    && (forall n :: n in p.tagged ==>
          exists e :: e in names && e in p.types && p.types[e].Envelope? && p.types[e].body == n)
    && (forall e | e in names && e in p.types && p.types[e].Envelope? ::
          p.types[e].body in p.tagged && p.tagged[p.types[e].body] == p.types[e].tag)
  }

  /** No field of any record refers to a record that carries an envelope's tag; rendering refuses that. */
  ghost predicate NoTaggedFields(p: Plan) {
    forall n | n in p.types && p.types[n].Record? :: DeclRefs(p.types[n]) - p.outside.external !! p.tagged.Keys
  }

  /** Nor does a payload kept as one field, which rendering does not look at. */
  ghost predicate NoTaggedPayloads(p: Plan, t: Target, names: set<string>) {
    forall n | n in names && n in p.types && p.types[n].Union? :: forall v <- p.types[n].variants ::
      KeepsPayload(t, n, v) ==> Refs(v.payload.value) - t.external !! p.tagged.Keys
  }

  lemma FieldsGood(p: Plan, names: set<string>, n: string)
    requires n in p.types && p.types[n].Record?
    requires DeclRefs(p.types[n]) <= names + p.outside.external && NoTaggedFields(p)
    requires ScalarAliases(p.types) && Lowerable(p.types, names) && FieldsDefined(p, p.types[n].fields)
    requires forall e <- Exprs(p.types[n]) :: PlainStrings(e)
    ensures GoodFields(p, names, p.types[n].fields)
  {
    var fields := p.types[n].fields;
    forall k | k in fields ensures GoodExpr(p, names, fields[k].ty) {
      var e := fields[k].ty;
      assert e in Exprs(p.types[n]);
      assert forall r <- Refs(e) :: r in DeclRefs(p.types[n]);
      GoodFromParts(p, names, e);
    }
  }

  /** The emitted declarations that become classes of their own; an envelope becomes its body's codec. */
  ghost function Classes(types: Types, names: set<string>): set<string> {
    set n | n in names && n in types && !types[n].Envelope?
  }

  /** A closed plan in which nothing refers to a record that carries a tag. */
  ghost predicate Renders(p: Plan, t: Target, order: seq<string>, reachable: set<string>, names: set<string>) {
    && Emits(p.types, t, order, reachable, names) && ClassesOf(p, t, names)
    && Lowerable(p.types, names + Bodies(p.types, t))
    && PlanClosed(p.types, t, order, names) && NoTaggedFields(p) && NoTaggedPayloads(p, t, names)
  }

  ghost predicate AllDefined(p: Plan, t: Target, names: set<string>) {
    HelpersDefined(p, names) && KeysDefined(p, names, Bodies(p.types, t))
  }

  /** Classes name only classes: what is used is not an envelope. */
  lemma UsesAreClasses(p: Plan, t: Target, order: seq<string>, reachable: set<string>, names: set<string>, n: string)
    requires Renders(p, t, order, reachable, names) && n in names
    ensures Uses(p.types, t, n) <= Classes(p.types, names) + t.external
  {
    hide LeastClosed, Allowed, Bodies, DeclRefs, Uses, RootSet, Lowerable, NoTaggedFields, NoTaggedPayloads;
    forall r | r in Uses(p.types, t, n) ensures r in Classes(p.types, names) + t.external {
      UseIsReached(p.types, t, order, reachable, names, n, r);
    }
  }

  /** Every class of such a plan whose helpers are defined is one the codec theorems are about, and every
      emitted envelope's body has its class or is external. */
  lemma PlanIsLowered(p: Plan, t: Target, order: seq<string>, reachable: set<string>, names: set<string>)
    requires Renders(p, t, order, reachable, names) && AllDefined(p, t, names) && ScalarAliases(p.types)
    requires forall n <- names :: p.types[n].Union? ==> DistinctTags(p.types[n].variants)
    ensures Lowered(p, Classes(p.types, names))
    ensures forall e <- names :: p.types[e].Envelope? ==> p.types[e].body in Classes(p.types, names) + t.external
    ensures RootSet(p.types, t, order) <= names + t.external
  {
    var classes := Classes(p.types, names);
    forall e | e in names && p.types[e].Envelope? ensures p.types[e].body in classes + t.external {
      UsesAreClasses(p, t, order, reachable, names, e);
      EnvelopeUses(p.types, t, e);
    }
    forall n | n in classes
      ensures match p.types[n]
        case Record(fields) => GoodFields(p, classes, fields)
        case Union(variants) => forall v <- variants :: GoodVariant(p, classes, n, v)
        case _ => true
    {
      match p.types[n] {
        case Record(fields) =>
          UsesAreClasses(p, t, order, reachable, names, n);
          FieldsGood(p, classes, n);
        case Union(variants) =>
          forall v | v in variants ensures GoodVariant(p, classes, n, v) {
            VariantGood(p, t, order, reachable, names, n, v);
          }
        case _ =>
      }
    }
  }

  lemma VariantGood(p: Plan, t: Target, order: seq<string>, reachable: set<string>, names: set<string>, n: string,
                    v: Variant)
    requires Renders(p, t, order, reachable, names) && AllDefined(p, t, names) && ScalarAliases(p.types)
    requires n in names && p.types[n].Union? && v in p.types[n].variants
    ensures GoodVariant(p, Classes(p.types, names), n, v)
  {
    var classes := Classes(p.types, names);
    UsesAreClasses(p, t, order, reachable, names, n);
    if v.payload.Some? {
      var e := v.payload.value;
      assert e in Exprs(p.types[n]);
      assert VariantUses(p.types, t, n, v) <= Uses(p.types, t, n);
      if KeepsPayload(t, n, v) {
        GoodFromParts(p, classes, e);
      } else {
        assert e.name in Bodies(p.types, t);
            FieldsGood(p, classes, e.name);
      }
    }
  }
}
