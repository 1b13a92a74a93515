/** A smallest surface that meets everything the end-to-end theorems ask for. */
module SurfaceExample {
  import opened Common
  import opened WireModel
  import opened WireCodec
  import opened WireCodecProofs
  import opened EmissionPlan
  import opened EmissionHelpers
  import opened EmissionProofs
  import opened SurfaceSchema
  import opened SurfaceMeaning
  import opened SurfaceKeywords
  import opened SurfaceOutcome
  import opened SurfaceModels
  import opened SurfaceToCodec

  const PING: Node := ObjectN(map["node" := IntegerN(Some(0), None, {})], {"node"}, true, true, {})
  const DOCS: Docs := Docs(map["Ping" := PING], map[])
  const ROOT: Root := EnvelopeRoot("Message", true, [("Tag", RefN(false, "Ping", {}))], ["Tag"], {})
  const RECORD: Decl := Record(map["node" := Field(false, U64)])
  const ENTRIES: seq<Named> := [Named("Ping", RECORD), Named("Message", Envelope("Tag", "Ping"))]

  lemma PingLowers()
    ensures LowerDecl(DOCS, false, PING) == Some(RECORD)
  {
    var ty := LowerExpr(DOCS, false, PING.properties["node"], {});
    assert ty == Some(U64);
    assert IsSnake("node");
    assert LowerRecord(DOCS, false, PING).value.fields == RECORD.fields;
  }

  lemma ExampleIsClean()
    ensures Clean(DOCS, map[]) && CleanRoot(DOCS, ROOT, map[])
  {
    assert AllDefs(DOCS) == {DefId(false, "Ping")};
  }

  lemma ExampleIsBuilt()
    ensures Built(DOCS, ROOT, ENTRIES)
  {
    PingLowers();
    var ping, message := ENTRIES[0], ENTRIES[1];
    assert Names(ENTRIES) == {"Ping", "Message"} by {
      assert ping in ENTRIES && message in ENTRIES;
    }
    assert Exprs(RECORD) == {U64} && DeclRefs(RECORD) == {} && DeclRefs(message.decl) == {};
    assert IsEnvelopeOf(ROOT, message);
    assert CarriedBy(DOCS, ROOT.properties[0], "Ping");
  }

  const ALL: set<string> := {"Ping", "Message"}
  const ORDER: seq<string> := ["Ping", "Message"]

  /** The target with its envelope emitted, or left to hand-written code. */
  function TargetOf(on: bool): Target {
    Target({}, map[], on)
  }

  /** What is reached, and emitted. */
  function Emitted(on: bool): set<string> {
    if on then ALL else {"Ping"}
  }

  lemma ExampleRefs()
    ensures Exprs(RECORD) == {U64} && DeclRefs(RECORD) == {}
    ensures Exprs(Envelope("Tag", "Ping")) == {} && DeclRefs(Envelope("Tag", "Ping")) == {}
  {
    assert RECORD.fields["node"].ty == U64;
    assert forall k <- RECORD.fields :: RECORD.fields[k].ty == U64;
  }

  lemma ExampleTypes(types: Types)
    requires types == ModelOf(ENTRIES)
    ensures types.Keys == ALL && types["Ping"] == RECORD && types["Message"] == Envelope("Tag", "Ping")
    ensures Successors(types["Ping"]) == {} && Successors(types["Message"]) == {"Ping"}
    ensures DeclRefs(types["Ping"]) == {} && DeclRefs(types["Message"]) == {} && Exprs(RECORD) == {U64}
    ensures Exprs(types["Message"]) == {}
  {
    assert Distinct(ENTRIES) && types.Keys == Names(ENTRIES) && Names(ENTRIES) == ALL by {
      assert ENTRIES[0] in ENTRIES && ENTRIES[1] in ENTRIES;
      hide ModelOf;
    }
    assert types["Ping"] == RECORD && types["Message"] == Envelope("Tag", "Ping") by {
      ModelEntries(ENTRIES);
      assert ENTRIES[0] in ENTRIES && ENTRIES[1] in ENTRIES;
      hide ModelOf;
    }
    hide ModelOf;
    ExampleRefs();
  }

  lemma ExampleRoots(types: Types, on: bool)
    requires types == ModelOf(ENTRIES)
    ensures (forall n :: n in ORDER <==> n in types)
    ensures RootSet(types, TargetOf(on), ORDER) == {if on then "Message" else "Ping"}
  {
    var t, root := TargetOf(on), if on then "Message" else "Ping";
    ExampleTypes(types);
    hide ModelOf, Successors, DeclRefs;
    assert Referenced(types) == {"Ping"};
    assert ORDER[..1] == ["Ping"] && ["Ping"][..0] == [];
    assert RootOf(types, t, "Ping") == [] && RootOf(types, t, "Message") == [root];
    hide RootOf, Referenced;
    assert Roots(types, t, ["Ping"]) == [];
    assert Roots(types, t, ORDER) == [root];
  }

  lemma ExampleIsReached(types: Types, on: bool)
    requires types == ModelOf(ENTRIES)
    ensures LeastClosed(types, {}, {if on then "Message" else "Ping"}, Emitted(on))
  {
    ExampleTypes(types);
    hide ModelOf, Successors, DeclRefs;
    var root := if on then "Message" else "Ping";
    forall c | Closed(types, {}, {root}, c) ensures Emitted(on) <= c {
      assert root in {root} - {} && (on ==> "Ping" in Successors(types["Message"]) - {});
    }
  }

  lemma ExampleIsAllowed(types: Types, on: bool)
    requires types == ModelOf(ENTRIES)
    ensures Allowed(types, TargetOf(on)) && Bodies(types, TargetOf(on)) == {}
    ensures Lowerable(types, Emitted(on) + Bodies(types, TargetOf(on)))
  {
    ExampleTypes(types);
    hide ModelOf, DeclRefs, Successors, Exprs;
    assert Bodies(types, TargetOf(on)) == {};
    hide Bodies;
  }

  /** It is planned, and nothing is flattened. */
  lemma ExampleIsPlanned(types: Types, on: bool)
    requires types == ModelOf(ENTRIES)
    ensures Plans(types, TargetOf(on), ORDER, Emitted(on), Emitted(on))
    ensures FlattenedNotNamed(types, TargetOf(on), ORDER, Emitted(on))
  {
    ExampleTypes(types);
    ExampleRoots(types, on);
    ExampleIsReached(types, on);
    ExampleIsAllowed(types, on);
    hide ModelOf, DeclRefs, Successors, Allowed, LeastClosed, RootSet, Bodies;
  }

  /** No nullable is in sight. */
  lemma ExampleIsFlat(types: Types)
    requires types == ModelOf(ENTRIES)
    ensures NullsAlike(DOCS, ROOT.properties[0].1, types)
  {
    ExampleTypes(types);
    hide ModelOf, DeclRefs, Successors, Exprs;
    assert Flat(U64);
  }

  lemma ExampleKinds(p: Plan)
    requires "Ping" in p.types && p.types["Ping"] == RECORD
    ensures DeclKinds(p, "Ping") == {NumberHelper} && KeysHelper(RECORD.fields) == ObjectHelper
  {
    assert RECORD.fields["node"].ty == U64 && FieldKinds(p, U64) == {NumberHelper};
    assert RequiredKeys(RECORD.fields) == RECORD.fields.Keys;
  }

  /** The helper its number needs is seen. */
  lemma ExampleIsDefined(p: Plan, on: bool)
    requires p.types == ModelOf(ENTRIES) && CodecOf(p, TargetOf(on), Emitted(on))
    ensures HelpersDefined(p, Emitted(on))
  {
    ExampleTypes(p.types);
    hide ModelOf, DeclRefs, Successors, Exprs, Bodies;
    ExampleKinds(p);
    KindsAreEmitted(p, Emitted(on), Bodies(p.types, TargetOf(on)), "Ping");
    hide EmittedHelpers, RecordKinds, DeclKinds;
    assert forall k <- RECORD.fields :: Needs(p, RECORD.fields[k].ty) == {NumberHelper};
  }

  /** Nothing refers to the tagged record, and its number is checked. */
  lemma ExampleIsChecked(p: Plan, on: bool)
    requires p.types == ModelOf(ENTRIES)
    ensures NoTaggedFields(p) && NoTaggedPayloads(p, TargetOf(on), Emitted(on))
    ensures AllChecked(p, Classes(p.types, Emitted(on)))
  {
    ExampleTypes(p.types);
    hide ModelOf, DeclRefs, Successors, Exprs;
    assert forall k <- RECORD.fields :: Checked(p, RECORD.fields[k].ty);
  }

  lemma ExampleExternals(p: Plan)
    requires p.types == ModelOf(ENTRIES) && p.outside.external == {}
    ensures ScalarAliases(p.types) && ExternalsCorrect(p.types, p.outside)
  {
    ExampleTypes(p.types);
    hide ModelOf;
  }

  /** The codec of the example: what its one number and its one record call. */
  function CodecPlan(o: Outside, on: bool): Plan {
    Plan(ModelOf(ENTRIES), o, map[], if on then map["Ping" := "Tag"] else map[], {NumberHelper, ObjectHelper})
  }

  lemma ExampleHelpers(p: Plan, on: bool)
    requires p.types.Keys == ALL && p.types["Ping"] == RECORD && p.types["Message"] == Envelope("Tag", "Ping")
    ensures EmittedHelpers(p, Emitted(on), {}) == {NumberHelper, ObjectHelper}
  {
    ExampleKinds(p);
    assert Emitted(on) + {} == Emitted(on) && "Ping" in Emitted(on) && DeclKinds(p, "Message") == {};
    hide DeclKinds;
    assert AnyRecord(p, Emitted(on), ObjectHelper) && !AnyRecord(p, Emitted(on), OptionalHelper);
    hide AnyRecord;
  }

  lemma ExampleClasses(p: Plan, on: bool)
    requires p.types.Keys == ALL && p.types["Ping"] == RECORD && p.types["Message"] == Envelope("Tag", "Ping")
    requires p.outside.external == {} && p.variantFields == map[]
    requires p.tagged == if on then map["Ping" := "Tag"] else map[]
    ensures ClassesOf(p, TargetOf(on), Emitted(on))
  {
  }

  lemma ExampleCodec(o: Outside, on: bool)
    requires o.external == {}
    ensures CodecOf(CodecPlan(o, on), TargetOf(on), Emitted(on))
  {
    var p := CodecPlan(o, on);
    hide ModelOf, Bodies, EmittedHelpers, ClassesOf;
    ExampleTypes(p.types);
    ExampleHelpers(p, on);
    ExampleClasses(p, on);
    ExampleIsAllowed(p.types, on);
  }

  lemma TargetIsPlain(on: bool)
    ensures TargetOf(on).external == {}
  {
  }

  /** The example goes through the whole pipeline, with its envelope emitted or not. */
  lemma ExampleIsRendered(o: Outside, on: bool) returns (p: Plan)
    requires o.external == {}
    ensures p.types == ModelOf(ENTRIES) && p.outside == o
    ensures Pipeline(DOCS, ROOT, map[], ENTRIES, p, TargetOf(on), ORDER, Emitted(on), Emitted(on))
    ensures ScalarAliases(p.types) && ExternalsCorrect(p.types, p.outside)
  {
    p := CodecPlan(o, on);
    assert p.types == ModelOf(ENTRIES) && p.outside == o;
    hide CodecPlan, TargetOf, Clean, CleanRoot, Built, ModelOf, NullsAlike, Plans, CodecOf, Lowerable,
         FlattenedNotNamed, NoTaggedFields, NoTaggedPayloads, HelpersDefined, AllChecked, ExternalsCorrect,
         ScalarAliases, Bodies, Emitted;
    assert ROOT.name !in TargetOf(on).external by {
      TargetIsPlain(on);
    }
    ExampleCodec(o, on);
    ExampleIsClean();
    ExampleIsBuilt();
    ExampleIsFlat(p.types);
    ExampleIsPlanned(p.types, on);
    ExampleIsAllowed(p.types, on);
    ExampleIsDefined(p, on);
    ExampleIsChecked(p, on);
    ExampleExternals(p);
  }
}
