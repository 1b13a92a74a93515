/** How far the generated codec carries the schema's meaning. */
module SurfaceToCodec {
  import opened Documents
  import opened WireModel
  import opened WireCodec
  import opened WireCodecProofs
  import opened WireEdges
  import opened EmissionPlan
  import opened EmissionHelpers
  import opened EmissionProofs
  import opened SurfaceSchema
  import opened SurfaceMeaning
  import opened SurfaceKeywords
  import opened SurfaceOutcome
  import opened SurfaceModels

  /** The same readers with nothing left to hand-written types. */
  function Internal(o: Outside): Outside {
    o.(external := {})
  }

  /** Each hand-written type takes what its declaration in the model takes. */
  ghost predicate ExternalsCorrect(types: Types, o: Outside)
    requires ScalarAliases(types)
  {
    forall n, v | n in o.external :: o.accepts(n, v) <==> Accepts(types, Internal(o), Ref(n), v)
  }

  lemma {:induction false} ExternalsVanish(types: Types, o: Outside, e: TypeExpr, v: Json)
    requires ScalarAliases(types) && ExternalsCorrect(types, o)
    ensures Accepts(types, o, e, v) <==> Accepts(types, Internal(o), e, v)
    decreases v, 10 + Rank(e)
  {
    match e {
      case ListT(element) =>
        if v.Arr? {
          forall i | 0 <= i < |v.items|
            ensures Accepts(types, o, element, v.items[i]) <==> Accepts(types, Internal(o), element, v.items[i])
          {
            ExternalsVanish(types, o, element, v.items[i]);
          }
        }
      case NullableT(inner) => ExternalsVanish(types, o, inner, v);
      case Ref(n) =>
        if n !in o.external && n in types {
          match types[n] {
            case Alias(target) => ExternalsVanish(types, o, target, v);
            case Record(fields) =>
              if v.Obj? {
                forall k | k in v.fields && k in fields
                  ensures Accepts(types, o, fields[k].ty, v.fields[k]) <==>
                          Accepts(types, Internal(o), fields[k].ty, v.fields[k])
                {
                  ExternalsVanish(types, o, fields[k].ty, v.fields[k]);
                }
              }
            case Union(variants) => ExternalsVanishInUnion(types, o, variants, v);
            case Envelope(tag, body) =>
              if v.Obj? && v.fields.Keys == {tag} {
                ExternalsVanish(types, o, Ref(body), v.fields[tag]);
              }
            case Enum(_) =>
          }
        }
      case _ =>
    }
  }

  lemma {:induction false} ExternalsVanishInUnion(types: Types, o: Outside, variants: seq<Variant>, v: Json)
    requires ScalarAliases(types) && ExternalsCorrect(types, o)
    ensures AcceptsUnion(types, o, variants, v) <==> AcceptsUnion(types, Internal(o), variants, v)
    decreases v, 5, |variants|
  {
    if variants != [] {
      var first := variants[0];
      if first.payload.Some? && v.Obj? && v.fields.Keys == {first.tag} {
        ExternalsVanish(types, o, first.payload.value, v.fields[first.tag]);
      }
      ExternalsVanishInUnion(types, o, variants[1..], v);
    }
  }

  /** The decoder of a tagged body takes a frame exactly when the frame, less optional keys that hold null, is
      valid under the root schema with an object for a body, and its numbers fit, up to keywords the model does
      not look at. */
  lemma FrameReading(docs: Docs, r: Reader, root: Root, enums: map<string, seq<string>>, entries: seq<Named>, p: Plan,
                     names: set<string>, body: string, v: Json)
    requires Clean(docs, enums) && CleanRoot(docs, root, enums) && Built(docs, root, entries)
    requires root.EnvelopeRoot? && |root.properties| == 1 && NullsAlike(docs, root.properties[0].1, p.types)
    requires p.types == ModelOf(entries) && r.o == Internal(p.outside)
    requires Lowered(p, names) && AllChecked(p, names) && body in names && IsFrame(p, root.name, body)
    requires ExternalsCorrect(p.types, p.outside)
    ensures
      var w := NormFrame(p, body, v);
      FromWire(p, body, v).Some? && RootKept(docs, r, root, w) <==>
        RootValid(docs, r, root, w) && Fits(w) && BodyIsObject(root, w)
  {
    hide Accepts, Valid, Clean, CleanRoot, Built, NullsAlike, ModelOf, AllChecked, NormFrame, FromWire, RootValid,
         RootKept, BodyIsObject;
    FrameExact(p, names, root.name, body, v);
    var w := NormFrame(p, body, v);
    ExternalsVanish(p.types, p.outside, Ref(root.name), w);
    EnvelopeMeaning(docs, r, root, enums, entries, w);
  }

  /** The same where the target leaves the envelope to hand-written code: the body's own decoder takes
      exactly the bodies of valid frames. */
  lemma BodyReading(docs: Docs, r: Reader, root: Root, enums: map<string, seq<string>>, entries: seq<Named>, p: Plan,
                    names: set<string>, v: Json)
    requires Clean(docs, enums) && CleanRoot(docs, root, enums) && Built(docs, root, entries)
    requires root.EnvelopeRoot? && |root.properties| == 1 && NullsAlike(docs, root.properties[0].1, p.types)
    requires p.types == ModelOf(entries) && r.o == Internal(p.outside)
    requires root.name in p.types && p.types[root.name].Envelope?
    requires Lowered(p, names) && AllChecked(p, names) && ExternalsCorrect(p.types, p.outside)
    requires var body := p.types[root.name].body; body in names && body !in p.tagged && !p.types[body].Alias?
    ensures
      var body, tag := p.types[root.name].body, p.types[root.name].tag;
      var frame := Obj(map[tag := Norm(p, Ref(body), v)]);
      FromWire(p, body, v).Some? && RootKept(docs, r, root, frame) <==>
        RootValid(docs, r, root, frame) && Fits(frame) && BodyIsObject(root, frame)
  {
    hide Accepts, Valid, Clean, CleanRoot, Built, NullsAlike, ModelOf, AllChecked, Lowered, FromWire, RootValid,
         RootKept, Norm, Fits, BodyIsObject;
    var body, tag := p.types[root.name].body, p.types[root.name].tag;
    FromWireExact(p, names, body, v);
    var w := Norm(p, Ref(body), v);
    var frame := Obj(map[tag := w]);
    EnvelopeMeaning(docs, r, root, enums, entries, frame);
    ExternalsVanish(p.types, p.outside, Ref(body), w);
    EnvelopeReads(p.types, r.o, root.name, frame);
  }

  // ---------------------------------------------------------------- from the documents to the generated classes

  /** A clean schema, built, planned for a target and rendered: what is asked of the documents, of the target,
      of the helpers generation sees a use of, and of the fields' constraints. */
  ghost predicate Pipeline(docs: Docs, root: Root, enums: map<string, seq<string>>, entries: seq<Named>, p: Plan,
                           t: Target, order: seq<string>, reachable: set<string>, names: set<string>) {
    && Clean(docs, enums) && CleanRoot(docs, root, enums) && Built(docs, root, entries)
    && root.EnvelopeRoot? && |root.properties| == 1 && root.name !in t.external
    && p.types == ModelOf(entries) && NullsAlike(docs, root.properties[0].1, p.types)
    && Plans(p.types, t, order, reachable, names) && CodecOf(p, t, names)
    && Lowerable(p.types, names + Bodies(p.types, t)) && FlattenedNotNamed(p.types, t, order, names)
    && NoTaggedFields(p) && NoTaggedPayloads(p, t, names) && HelpersDefined(p, names)
    && AllChecked(p, Classes(p.types, names))
  }

  lemma {:induction false} RootsOfMember(types: Types, t: Target, order: seq<string>, n: string)
    requires (forall m <- order :: m in types) && n in order
    ensures forall r <- RootOf(types, t, n) :: r in RootSet(types, t, order)
  {
    var last := order[|order| - 1];
    if n != last {
      RootsOfMember(types, t, order[..|order| - 1], n);
    }
    forall r | r in RootOf(types, t, n) ensures r in Roots(types, t, order) {
      assert n != last ==> r in RootSet(types, t, order[..|order| - 1]);
    }
  }

  /** Nothing refers to an envelope, so it is a root, or its body is one in its place. */
  lemma EnvelopeIsRoot(types: Types, t: Target, order: seq<string>, n: string)
    requires Resolved(types) && (forall m :: m in order <==> m in types) && n in types && types[n].Envelope?
    ensures (if t.envelopeOn then n else types[n].body) in RootSet(types, t, order)
  {
    RootsOfMember(types, t, order, n);
    assert n !in Referenced(types);
    var r := if t.envelopeOn then n else types[n].body;
    assert RootOf(types, t, n) == [r] && r in RootOf(types, t, n);
  }

  lemma BuiltTagsDistinct(docs: Docs, root: Root, entries: seq<Named>, n: string)
    requires Built(docs, root, entries) && n in ModelOf(entries)
    ensures ModelOf(entries)[n].Union? ==> DistinctTags(ModelOf(entries)[n].variants)
  {
    hide LowerDecl, LowerExpr, AllEnums, DeclRefs, EnvelopeBuilt;
    ModelEntries(entries);
    var t :| t in entries && t.name == n;
    if t.name in docs.local {
      LoweredKinds(docs, false, docs.local[t.name]);
    }
    if t.name in docs.shared {
      LoweredKinds(docs, true, docs.shared[t.name]);
    }
  }

  /** What a built model plans is closed and renders. */
  lemma PipelineRenders(docs: Docs, root: Root, enums: map<string, seq<string>>, entries: seq<Named>, p: Plan,
                        t: Target, order: seq<string>, reachable: set<string>, names: set<string>)
    requires Pipeline(docs, root, enums, entries, p, t, order, reachable, names)
    ensures Resolved(p.types) && ScalarAliases(p.types) && Renders(p, t, order, reachable, names)
    ensures AllDefined(p, t, names)
    ensures forall n <- names :: n in p.types && (p.types[n].Union? ==> DistinctTags(p.types[n].variants))
  {
    hide Clean, CleanRoot, Built, ModelOf, NullsAlike, Allowed, LeastClosed, Lowerable, NoTaggedFields,
         NoTaggedPayloads, AllChecked, RootSet, Bodies, Resolved, HelpersDefined, KeysDefined, EmittedHelpers,
         ClassesOf, PlanClosed, FlattenedNotNamed;
    BuiltIsResolved(docs, root, enums, entries);
    BuiltIsFaithful(docs, root, enums, entries);
    PlanClosedIff(p.types, t, order, reachable, names);
    KeysAreEmitted(p, names, Bodies(p.types, t));
    forall n | n in names ensures p.types[n].Union? ==> DistinctTags(p.types[n].variants) {
      BuiltTagsDistinct(docs, root, entries, n);
    }
  }

  /** All classes are covered by the codec theorems, and the envelope's body has one or is hand-written. */
  lemma PipelineIsLowered(docs: Docs, root: Root, enums: map<string, seq<string>>, entries: seq<Named>, p: Plan,
                          t: Target, order: seq<string>, reachable: set<string>, names: set<string>)
    requires Pipeline(docs, root, enums, entries, p, t, order, reachable, names)
    ensures Lowered(p, Classes(p.types, names)) && root.name in p.types && p.types[root.name].Envelope?
    ensures p.types[root.name].body in Classes(p.types, names) + t.external
    ensures t.envelopeOn ==> root.name in names
    ensures !t.envelopeOn ==> p.tagged == map[]
  {
    hide Clean, CleanRoot, Built, ModelOf, NullsAlike, Allowed, LeastClosed, Lowerable, NoTaggedFields,
         NoTaggedPayloads, AllChecked, Lowered, RootSet, Bodies, Resolved, Renders, AllDefined, HelpersDefined,
         EmittedHelpers, FlattenedNotNamed;
    PipelineRenders(docs, root, enums, entries, p, t, order, reachable, names);
    EnvelopeBodyIsNamed(docs, root, enums, entries);
    PlanIsLowered(p, t, order, reachable, names);
    EnvelopeIsRoot(p.types, t, order, root.name);
    var body := p.types[root.name].body;
    OnlyRootIsEnvelope(docs, root, enums, entries, body);
    if !t.envelopeOn {
      forall n ensures n !in p.tagged {
        assert forall e <- names :: !p.types[e].Envelope?;
      }
    }
  }

  /** End to end, with the envelope emitted: the generated decoder of the frame takes exactly the frames that
      are valid under the root schema. */
  lemma FrameMeaning(docs: Docs, r: Reader, root: Root, enums: map<string, seq<string>>, entries: seq<Named>, p: Plan,
                     t: Target, order: seq<string>, reachable: set<string>, names: set<string>, v: Json)
    requires Pipeline(docs, root, enums, entries, p, t, order, reachable, names) && t.envelopeOn
    requires ScalarAliases(p.types) && ExternalsCorrect(p.types, p.outside) && r.o == Internal(p.outside)
    requires root.name in p.types && p.types[root.name].Envelope?
    requires var body := p.types[root.name].body; body !in t.external && body in p.types && p.types[body].Record?
    ensures p.types[root.name].body in p.tagged
    ensures
      var w := NormFrame(p, p.types[root.name].body, v);
      FromWire(p, p.types[root.name].body, v).Some? && RootKept(docs, r, root, w) <==>
        RootValid(docs, r, root, w) && Fits(w) && BodyIsObject(root, w)
  {
    hide Clean, CleanRoot, Built, ModelOf, NullsAlike, Plans, Lowerable, NoTaggedFields, NoTaggedPayloads, AllChecked,
         Lowered, FlattenedNotNamed, HelpersDefined, EmittedHelpers, ExternalsCorrect, FromWire, NormFrame, RootValid,
         RootKept, Fits, BodyIsObject;
    PipelineIsLowered(docs, root, enums, entries, p, t, order, reachable, names);
    FrameReading(docs, r, root, enums, entries, p, Classes(p.types, names), p.types[root.name].body, v);
  }

  /** End to end, with the envelope left to hand-written code. */
  lemma BodyMeaning(docs: Docs, r: Reader, root: Root, enums: map<string, seq<string>>, entries: seq<Named>, p: Plan,
                    t: Target, order: seq<string>, reachable: set<string>, names: set<string>, v: Json)
    requires Pipeline(docs, root, enums, entries, p, t, order, reachable, names) && !t.envelopeOn
    requires ScalarAliases(p.types) && ExternalsCorrect(p.types, p.outside) && r.o == Internal(p.outside)
    requires root.name in p.types && p.types[root.name].Envelope?
    requires var body := p.types[root.name].body; body !in t.external && body in p.types && !p.types[body].Alias?
    ensures
      var body, tag := p.types[root.name].body, p.types[root.name].tag;
      var frame := Obj(map[tag := Norm(p, Ref(body), v)]);
      FromWire(p, body, v).Some? && RootKept(docs, r, root, frame) <==>
        RootValid(docs, r, root, frame) && Fits(frame) && BodyIsObject(root, frame)
  {
    hide Clean, CleanRoot, Built, ModelOf, NullsAlike, Plans, Lowerable, NoTaggedFields, NoTaggedPayloads, AllChecked,
         Lowered, FlattenedNotNamed, HelpersDefined, EmittedHelpers, ExternalsCorrect, FromWire, Norm, RootValid,
         RootKept, Fits, BodyIsObject;
    PipelineIsLowered(docs, root, enums, entries, p, t, order, reachable, names);
    BodyReading(docs, r, root, enums, entries, p, Classes(p.types, names), v);
  }
}
