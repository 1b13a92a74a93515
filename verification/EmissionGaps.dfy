/** Surfaces a target can be planned for although something the generated code names has no class, or has
    a codec that asks for a tag. */
module EmissionGaps {
  import opened Common
  import opened Documents
  import opened WireModel
  import opened WireCodec
  import opened WireCodecProofs
  import opened EmissionPlan
  import opened EmissionHelpers
  import opened EmissionProofs
  import opened HelperProofs

  const NODE: Decl := Record(map["node" := Field(false, U64)])
  const NOTHING := Variant("Nothing", None)

  function One(body: string): Variant {
    Variant("One", Some(Ref(body)))
  }

  function Many(body: string): Variant {
    Variant("Many", Some(ListT(Ref(body))))
  }

  lemma NodeRefs()
    ensures DeclRefs(NODE) == {} && forall e <- Exprs(NODE) :: e == U64
  {
    assert forall e <- Exprs(NODE) :: e == U64;
  }

  /** A union that inlines a record in its first variant. */
  lemma OpRefs(body: string, other: Variant)
    requires other == Many(body) || other == NOTHING
    ensures DeclRefs(Union([One(body), other])) == {body}
    ensures forall e <- Exprs(Union([One(body), other])) :: PlainStrings(e)
  {
    var op := Union([One(body), other]);
    assert One(body) in op.variants && Ref(body) in Exprs(op) && body in Refs(Ref(body));
    assert forall e <- Exprs(op) :: e == Ref(body) || e == ListT(Ref(body));
  }

  lemma RootsOfTwo(types: Types, t: Target, a: string, b: string)
    requires a in types && b in types
    ensures Roots(types, t, [a, b]) == RootOf(types, t, a) + RootOf(types, t, b)
  {
    hide RootOf;
    assert [a, b][..1] == [a] && [a][..0] == [];
    assert Roots(types, t, [a]) == RootOf(types, t, a);
  }

  lemma RootsOfThree(types: Types, t: Target, a: string, b: string, c: string)
    requires a in types && b in types && c in types
    ensures Roots(types, t, [a, b, c]) == RootOf(types, t, a) + RootOf(types, t, b) + RootOf(types, t, c)
  {
    hide RootOf;
    assert [a, b, c][..2] == [a, b];
    RootsOfTwo(types, t, a, b);
  }

  lemma RootSetOf(types: Types, t: Target, order: seq<string>, roots: seq<string>)
    requires (forall n <- order :: n in types) && Roots(types, t, order) == roots
    ensures RootSet(types, t, order) == set r | r in roots
  {
  }

  // ---------------------------------------------------------------- surfaces of two declarations

  /** One declaration refers to the other, and nothing else refers to anything. */
  ghost predicate Pair(types: Types, user: string, used: string) {
    && user != used && types.Keys == {user, used} && !types[user].Envelope? && !types[used].Envelope?
    && Successors(types[user]) == {used} && Successors(types[used]) == {}
  }

  lemma PairResolves(types: Types, user: string, used: string)
    requires Pair(types, user, used)
    ensures Resolved(types) && Referenced(types) == {used}
  {
    hide Successors;
  }

  lemma PairRoots(types: Types, t: Target, user: string, used: string)
    requires Pair(types, user, used)
    ensures RootSet(types, t, [user, used]) == {user} && LeastClosed(types, {}, {user}, {user, used})
  {
    PairResolves(types, user, used);
    hide Successors, Resolved, Referenced, RootSet;
    RootsOfTwo(types, t, user, used);
    hide Roots;
    RootSetOf(types, t, [user, used], [user]);
    forall c | Closed(types, {}, {user}, c) ensures {user, used} <= c {
      assert user in {user} - {} && used in Successors(types[user]) - {};
    }
  }

  // ---------------------------------------------------------------- a payload names a flattened record

  /** A union that inlines a record and also keeps a list of it. */
  ghost predicate KeptSurface(types: Types, t: Target, op: string, body: string) {
    && op != body && types.Keys == {op, body}
    && types[op] == Union([One(body), Many(body)]) && types[body] == NODE
    && t == Target({}, map[(op, "Many") := "items"], true)
  }

  lemma KeptShape(types: Types, t: Target, op: string, body: string)
    requires KeptSurface(types, t, op, body)
    ensures DeclRefs(types[op]) == {body} && Successors(types[op]) == {body}
    ensures Successors(types[body]) == {} && DeclRefs(types[body]) == {}
    ensures Lowerable(types, {op, body})
  {
    OpRefs(body, Many(body));
    NodeRefs();
  }

  lemma KeptBodies(types: Types, t: Target, op: string, body: string)
    requires KeptSurface(types, t, op, body)
    ensures Bodies(types, t) == {body} && Allowed(types, t)
  {
    KeptShape(types, t, op, body);
    hide DeclRefs, Successors, Lowerable;
    var variants := types[op].variants;
    assert One(body) in variants && (forall v <- variants :: v == One(body) || v == Many(body));
    assert "One" != "Many" && (op, "One") !in t.variantFields && (op, "Many") in t.variantFields;
    assert Bodies(types, t) == {body};
    hide Bodies;
  }

  /** Planning succeeds, the union is emitted, and one of its fields is a list of a record that was flattened
      away and so has no class. */
  lemma KeptPayloadMayNameNoClass(types: Types, t: Target, op: string, body: string)
    requires KeptSurface(types, t, op, body)
    ensures Emits(types, t, [op, body], {op, body}, {op}) && Lowerable(types, {op} + Bodies(types, t))
    ensures !PlanClosed(types, t, [op, body], {op})
  {
    KeptShape(types, t, op, body);
    KeptBodies(types, t, op, body);
    assert KeepsPayload(t, op, Many(body)) && Many(body) in types[op].variants;
    assert body in Refs(Many(body).payload.value);
    assert Pair(types, op, body);
    PairResolves(types, op, body);
    PairRoots(types, t, op, body);
    hide Allowed, Lowerable, RootSet, Bodies, Successors, Resolved, DeclRefs, Uses, PlanClosed, Referenced;
    hide Roots, LeastClosed;
    assert {op} + {body} == {op, body};
    PlanClosedIff(types, t, [op, body], {op, body}, {op});
  }

  // ---------------------------------------------------------------- a helper only an alias calls

  const KEY: Variant := Variant("Key", Some(Ref("Id")))
  const PEER: Field := Field(false, NullableT(Ref("Id")))

  /** An alias of a number, and a record with a nullable field of it or a union that keeps it as a payload. */
  ghost predicate AliasSurface(types: Types, t: Target, user: string, kept: bool) {
    && user != "Id" && types.Keys == {user, "Id"} && types["Id"] == Alias(U64) && t.external == {}
    && types[user] == (if kept then Union([KEY, NOTHING]) else Record(map["peer" := PEER]))
    && t.variantFields == if kept then map[(user, "Key") := "id"] else map[]
  }

  lemma AliasShape(types: Types, t: Target, user: string, kept: bool)
    requires AliasSurface(types, t, user, kept)
    ensures Pair(types, user, "Id") && Lowerable(types, {user, "Id"}) && ScalarAliases(types)
    ensures DeclRefs(types[user]) == {"Id"} && DeclRefs(types["Id"]) == {}
  {
    var e := if kept then Ref("Id") else PEER.ty;
    assert Refs(e) == {"Id"} && PlainStrings(e);
    assert Exprs(types[user]) == {e} by {
      if kept {
        assert KEY in [KEY, NOTHING] && forall v <- [KEY, NOTHING] :: v == KEY || v == NOTHING;
      } else {
        assert "peer" in map["peer" := PEER];
      }
    }
    assert Exprs(types["Id"]) == {U64} && Refs(U64) == {};
  }

  lemma AliasBodies(types: Types, t: Target, user: string, kept: bool)
    requires AliasSurface(types, t, user, kept)
    ensures Bodies(types, t) == {} && Allowed(types, t)
  {
    AliasShape(types, t, user, kept);
    hide DeclRefs, Pair, Lowerable;
    assert kept ==> forall v <- types[user].variants :: v == KEY || v == NOTHING;
    assert Bodies(types, t) == {};
    hide Bodies;
  }

  lemma AliasIsPlanned(types: Types, t: Target, user: string, kept: bool)
    requires AliasSurface(types, t, user, kept)
    ensures Emits(types, t, [user, "Id"], {user, "Id"}, {user, "Id"})
    ensures Lowerable(types, {user, "Id"} + Bodies(types, t))
    ensures PlanClosed(types, t, [user, "Id"], {user, "Id"})
  {
    var all := {user, "Id"};
    AliasShape(types, t, user, kept);
    AliasBodies(types, t, user, kept);
    PairResolves(types, user, "Id");
    PairRoots(types, t, user, "Id");
    hide Allowed, Lowerable, RootSet, Bodies, Successors, Resolved, DeclRefs, Referenced, LeastClosed;
    assert all + {} == all;
    assert Emits(types, t, [user, "Id"], all, all);
    assert FlattenedNotNamed(types, t, [user, "Id"], all);
    hide Emits, PlanClosed, FlattenedNotNamed;
    PlanClosedIff(types, t, [user, "Id"], all, all);
  }

  /** Generation looks through aliases only where a field is one itself. */
  lemma NumberIsNotSeen(p: Plan, t: Target, user: string, kept: bool)
    requires AliasSurface(p.types, t, user, kept) && CodecOf(p, t, {user, "Id"})
    ensures NumberHelper !in p.helpers && p.tagged == map[]
  {
    AliasBodies(p.types, t, user, kept);
    hide Bodies, Allowed;
    assert DeclKinds(p, "Id") == {};
    assert DeclKinds(p, user) == {} by {
      if kept {
        assert forall v <- [KEY, NOTHING] :: v == KEY || v == NOTHING;
      } else {
        assert FieldKinds(p, PEER.ty) == {};
      }
    }
    hide DeclKinds, AnyRecord;
    assert forall n | n in p.tagged :: false;
  }

  function AliasValue(kept: bool, n: nat): Json {
    Obj(map[if kept then "Key" else "peer" := Int(n)])
  }

  lemma AliasRenders(p: Plan, t: Target, user: string, kept: bool)
    requires AliasSurface(p.types, t, user, kept) && CodecOf(p, t, {user, "Id"})
    ensures Renders(p, t, [user, "Id"], {user, "Id"}, {user, "Id"})
  {
    AliasIsPlanned(p.types, t, user, kept);
    NumberIsNotSeen(p, t, user, kept);
    hide Emits, Lowerable, PlanClosed, Bodies, DeclRefs, EmittedHelpers;
  }

  lemma AliasIsChecked(p: Plan, t: Target, user: string, kept: bool)
    requires AliasSurface(p.types, t, user, kept) && p.outside.external == {} && p.variantFields == t.variantFields
    ensures AllChecked(p, {user, "Id"})
  {
    assert Resolve(p, Ref("Id")) == U64;
    assert forall w <- [KEY, NOTHING] :: w == KEY || w == NOTHING;
  }

  /** Planning and rendering have nothing to refuse, and yet decoding any number fails, which the model takes and
      a module with every helper would decode: nothing defines the helper for numbers. */
  lemma AliasHelperIsMissing(p: Plan, t: Target, user: string, kept: bool, n: nat)
    requires AliasSurface(p.types, t, user, kept) && CodecOf(p, t, {user, "Id"}) && n <= U64_MAX
    ensures Renders(p, t, [user, "Id"], {user, "Id"}, {user, "Id"}) && ScalarAliases(p.types)
    ensures AllChecked(p, {user, "Id"})
    ensures Accepts(p.types, p.outside, Ref(user), AliasValue(kept, n))
    ensures FromWire(Full(p), user, AliasValue(kept, n)).Some? && FromWire(p, user, AliasValue(kept, n)).None?
  {
    AliasRenders(p, t, user, kept);
    AliasShape(p.types, t, user, kept);
    NumberIsNotSeen(p, t, user, kept);
    AliasIsChecked(p, t, user, kept);
    hide Renders, Pair, Lowerable, DeclRefs, EmittedHelpers, AllChecked, FromWire, Accepts;
    AliasIdReads(p, n);
    if kept {
      AliasPayloadReads(p, user, n);
    } else {
      AliasFieldReads(p, user, n);
    }
  }

  lemma AliasIdReads(p: Plan, n: nat)
    requires "Id" in p.types && p.types["Id"] == Alias(U64) && p.outside.external == {} && n <= U64_MAX
    requires NumberHelper !in p.helpers && ScalarAliases(p.types)
    ensures Resolve(p, Ref("Id")) == U64 && Accepts(p.types, p.outside, Ref("Id"), Int(n))
    ensures Decode(p, Ref("Id"), Int(n)) == None && Decode(Full(p), Ref("Id"), Int(n)) == Some(PyInt(n))
  {
    FullDefines(p);
    assert Decode(p, U64, Int(n)) == None && Decode(Full(p), U64, Int(n)) == Some(PyInt(n));
  }

  lemma AliasPayloadReads(p: Plan, user: string, n: nat)
    requires user in p.types && p.types[user] == Union([KEY, NOTHING]) && (user, "Key") in p.variantFields
    requires p.outside.external == {} && ScalarAliases(p.types) && n <= U64_MAX
    requires Resolve(p, Ref("Id")) == U64 && Accepts(p.types, p.outside, Ref("Id"), Int(n))
    requires Decode(p, Ref("Id"), Int(n)) == None && Decode(Full(p), Ref("Id"), Int(n)) == Some(PyInt(n))
    ensures Accepts(p.types, p.outside, Ref(user), AliasValue(true, n))
    ensures FromWire(Full(p), user, AliasValue(true, n)).Some? && FromWire(p, user, AliasValue(true, n)).None?
  {
    var v := AliasValue(true, n);
    FullDefines(p);
    assert v.fields.Keys == {"Key"} && OnlyKey(v.fields) == "Key" && v.fields["Key"] == Int(n);
    assert FirstWith([KEY, NOTHING], "Key", false) == Some(KEY);
    hide Decode;
    assert DecodeBody(p, user, "Key", Ref("Id"), Int(n)) == None;
    assert DecodeBody(Full(p), user, "Key", Ref("Id"), Int(n)).Some?;
  }

  lemma AliasFieldReads(p: Plan, user: string, n: nat)
    requires user in p.types && p.types[user] == Record(map["peer" := PEER]) && user !in p.tagged
    requires p.outside.external == {} && ScalarAliases(p.types) && n <= U64_MAX
    requires Resolve(p, Ref("Id")) == U64 && Accepts(p.types, p.outside, Ref("Id"), Int(n))
    requires Decode(p, Ref("Id"), Int(n)) == None && Decode(Full(p), Ref("Id"), Int(n)) == Some(PyInt(n))
    ensures Accepts(p.types, p.outside, Ref(user), AliasValue(false, n))
    ensures FromWire(Full(p), user, AliasValue(false, n)).Some? && FromWire(p, user, AliasValue(false, n)).None?
  {
    var v, fields := AliasValue(false, n), map["peer" := PEER];
    FullDefines(p);
    assert v.fields.Keys == {"peer"} && fields.Keys == {"peer"} && RequiredKeys(fields) == {"peer"};
    assert Accepts(p.types, p.outside, PEER.ty, Int(n)) && Decode(p, PEER.ty, Int(n)) == None;
    assert Decode(Full(p), PEER.ty, Int(n)) == Some(PyInt(n)) && PostInit(Full(p), PEER, PyInt(n));
    assert Accepts(p.types, p.outside, Ref(user), v) == AcceptsRecord(p.types, p.outside, fields, v);
    hide Decode, PostInit, Accepts;
    assert FieldIn(p, PEER, "peer", v) == None && FieldIn(Full(p), PEER, "peer", v).Some?;
    hide FieldIn;
    RecordFromFields(p, fields, v);
    RecordFromFields(Full(p), fields, v);
    hide DecodeRecord;
  }

  // ---------------------------------------------------------------- surfaces of a union, a record and an envelope

  /** A union and an envelope that both refer to one record. */
  ghost predicate Triangle(types: Types, op: string, body: string, frame: string) {
    && op != body && frame != op && frame != body && types.Keys == {op, body, frame}
    && types[op].Union? && types[body].Record? && types[frame].Envelope? && types[frame].body == body
    && Successors(types[op]) == {body} && Successors(types[body]) == {} && Successors(types[frame]) == {body}
  }

  lemma TriangleResolves(types: Types, op: string, body: string, frame: string)
    requires Triangle(types, op, body, frame)
    ensures Resolved(types) && Referenced(types) == {body}
  {
    hide Successors;
  }

  lemma TriangleRoots(types: Types, t: Target, op: string, body: string, frame: string)
    requires Triangle(types, op, body, frame)
    ensures Resolved(types) && RootSet(types, t, [op, body, frame]) == {op, if t.envelopeOn then frame else body}
  {
    TriangleResolves(types, op, body, frame);
    hide Successors, Referenced, Resolved, Roots, RootSet;
    var last := if t.envelopeOn then frame else body;
    RootsOfThree(types, t, op, body, frame);
    assert RootOf(types, t, op) == [op] && RootOf(types, t, body) == [] && RootOf(types, t, frame) == [last];
    hide RootOf;
    RootSetOf(types, t, [op, body, frame], [op, last]);
  }

  lemma TriangleLeast(types: Types, t: Target, op: string, body: string, frame: string)
    requires Triangle(types, op, body, frame)
    ensures var roots := {op, if t.envelopeOn then frame else body}; LeastClosed(types, {}, roots, roots + {body})
  {
    hide Successors;
    var roots := {op, if t.envelopeOn then frame else body};
    forall c | Closed(types, {}, roots, c) ensures roots + {body} <= c {
      assert roots - {} == roots && body in Successors(types[op]) - {};
    }
  }

  lemma TriangleIsEmitted(types: Types, t: Target, op: string, body: string, frame: string)
    requires Triangle(types, op, body, frame) && t.external == {} && Allowed(types, t)
    ensures
      var order, reached := [op, body, frame], {op, body} + if t.envelopeOn then {frame} else {};
      Emits(types, t, order, reached, set n | n in reached && n !in Bodies(types, t))
  {
    TriangleResolves(types, op, body, frame);
    TriangleRoots(types, t, op, body, frame);
    TriangleLeast(types, t, op, body, frame);
    hide Successors, Referenced, Resolved, RootSet, LeastClosed, Allowed, Bodies;
    var roots, reached := {op, if t.envelopeOn then frame else body}, {op, body} + if t.envelopeOn then {frame} else {};
    assert roots + {body} == reached;
    TriangleNames(types, t, op, body, frame, reached);
    hide Triangle, IsEmitted;
  }

  lemma TriangleNames(types: Types, t: Target, op: string, body: string, frame: string, reached: set<string>)
    requires Triangle(types, op, body, frame) && reached == {op, body} + if t.envelopeOn then {frame} else {}
    ensures forall n :: n in [op, body, frame] <==> n in types
    ensures forall n :: IsEmitted(types, t, reached, n) <==> n in reached && n !in Bodies(types, t)
  {
    hide Successors, Bodies;
  }

  lemma LowerableSome(types: Types, all: set<string>, some: set<string>)
    requires Lowerable(types, all) && some <= all
    ensures Lowerable(types, some)
  {
  }

  // ---------------------------------------------------------------- an envelope names a flattened record

  /** A union that inlines a record which is also an envelope's body; nothing is kept. */
  ghost predicate FrameSurface(types: Types, t: Target, op: string, body: string, frame: string) {
    && op != body && frame != op && frame != body && types.Keys == {op, body, frame}
    && types[op] == Union([One(body), NOTHING]) && types[body] == NODE && types[frame] == Envelope("Tag", body)
    && t.variantFields == map[] && t.external == {}
  }

  lemma FrameShape(types: Types, t: Target, op: string, body: string, frame: string)
    requires FrameSurface(types, t, op, body, frame)
    ensures Triangle(types, op, body, frame) && Lowerable(types, {op, body, frame})
    ensures DeclRefs(types[body]) == {} && DeclRefs(types[frame]) == {}
  {
    OpRefs(body, NOTHING);
    NodeRefs();
  }

  lemma FrameBodies(types: Types, t: Target, op: string, body: string, frame: string)
    requires FrameSurface(types, t, op, body, frame)
    ensures Bodies(types, t) == {body} && Allowed(types, t)
  {
    FrameShape(types, t, op, body, frame);
    var variants := types[op].variants;
    assert One(body) in variants && (forall v <- variants :: v == One(body) || v == NOTHING);
    hide DeclRefs, Triangle, Lowerable;
    assert Bodies(types, t) == {body};
    hide Bodies;
  }

  /** No payload is kept, planning succeeds, and yet the record the envelope wraps was flattened away: the
      frame has no class, whether the envelope is emitted or left to hand-written code. */
  lemma EnvelopeMayHaveNoClass(types: Types, t: Target, op: string, body: string, frame: string)
    requires FrameSurface(types, t, op, body, frame)
    ensures
      var order, names := [op, body, frame], {op} + if t.envelopeOn then {frame} else {};
      && Emits(types, t, order, names + {body}, names) && Lowerable(types, names + Bodies(types, t))
      && types[frame].body !in names + t.external
      && !PlanClosed(types, t, order, names)
  {
    var order, names := [op, body, frame], {op} + if t.envelopeOn then {frame} else {};
    FrameShape(types, t, op, body, frame);
    FrameBodies(types, t, op, body, frame);
    LowerableSome(types, {op, body, frame}, names + {body});
    hide Allowed, Bodies, DeclRefs, Lowerable;
    TriangleIsEmitted(types, t, op, body, frame);
    TriangleRoots(types, t, op, body, frame);
    hide Triangle, Emits, PlanClosed, RootSet;
    var reached := {op, body} + if t.envelopeOn then {frame} else {};
    assert reached == names + {body} && names == set n | n in reached && n !in Bodies(types, t);
    PlanClosedIff(types, t, order, reached, names);
  }

  // ---------------------------------------------------------------- a payload names a tagged record

  /** A union that keeps a list of the record an envelope wraps; nothing is flattened. */
  ghost predicate TaggedSurface(types: Types, t: Target, op: string, body: string, frame: string) {
    && op != body && frame != op && frame != body && types.Keys == {op, body, frame}
    && types[op] == Union([Many(body), NOTHING]) && types[body] == NODE && types[frame] == Envelope("Tag", body)
    && t == Target({}, map[(op, "Many") := "items"], true)
  }

  lemma TaggedShape(types: Types, t: Target, op: string, body: string, frame: string)
    requires TaggedSurface(types, t, op, body, frame)
    ensures Triangle(types, op, body, frame) && Lowerable(types, {op, body, frame})
    ensures DeclRefs(types[body]) == {} && DeclRefs(types[frame]) == {}
  {
    NodeRefs();
    var decl, list := types[op], ListT(Ref(body));
    assert Many(body) in decl.variants && list in Exprs(decl);
    assert Refs(list) == {body} && forall e <- Exprs(decl) :: e == list;
    assert DeclRefs(decl) == {body};
  }

  lemma TaggedBodies(types: Types, t: Target, op: string, body: string, frame: string)
    requires TaggedSurface(types, t, op, body, frame)
    ensures Bodies(types, t) == {} && Allowed(types, t)
  {
    TaggedShape(types, t, op, body, frame);
    assert forall v <- types[op].variants :: v == Many(body) || v == NOTHING;
    assert (op, "Many") in t.variantFields && "Many" != "Nothing";
    hide DeclRefs, Triangle, Lowerable;
    assert Bodies(types, t) == {};
    hide Bodies;
  }

  function NodeValue(n: nat): Json {
    Obj(map["node" := Int(n)])
  }

  /** Planning and rendering have nothing to refuse, every name used has its class, and yet the union's
      decoder turns down a value the model takes: the list's elements are bare bodies, and the body's codec
      asks for the envelope's tag. */
  lemma TaggedPayloadIsMisread(p: Plan, t: Target, op: string, body: string, frame: string, n: nat)
    requires TaggedSurface(p.types, t, op, body, frame) && CodecOf(p, t, {op, body, frame}) && n <= U64_MAX
    ensures Emits(p.types, t, [op, body, frame], {op, body, frame}, {op, body, frame})
    ensures Lowerable(p.types, {op, body, frame} + Bodies(p.types, t)) && NoTaggedFields(p)
    ensures PlanClosed(p.types, t, [op, body, frame], {op, body, frame}) && HelpersDefined(p, {op, body, frame})
    ensures ScalarAliases(p.types) && p.outside.external == {}
    ensures var v := Obj(map["Many" := Arr([NodeValue(n)])]);
      Accepts(p.types, p.outside, Ref(op), v) && FromWire(p, op, v).None?
  {
    TaggedIsPlanned(p, t, op, body, frame);
    OnlyRecordRefers(p, t, op, body, frame);
    TaggedHelpers(p, t, op, body, frame);
    hide NoTaggedFields, PlanClosed, Emits, Lowerable, HelpersDefined;
    assert p.types[frame].body in p.tagged && p.tagged[body] == "Tag";
    BodyIsMisread(p, t, op, body, frame, n);
    ListIsMisread(p, t, op, body, frame, NodeValue(n));
  }

  lemma ListIsMisread(p: Plan, t: Target, op: string, body: string, frame: string, v: Json)
    requires TaggedSurface(p.types, t, op, body, frame) && p.outside.external == {} && ScalarAliases(p.types)
    requires p.variantFields == t.variantFields
    requires Accepts(p.types, p.outside, Ref(body), v) && Decode(p, Ref(body), v).None?
    ensures var w := Obj(map["Many" := Arr([v])]);
      Accepts(p.types, p.outside, Ref(op), w) && FromWire(p, op, w).None?
  {
    var w, items, list := Obj(map["Many" := Arr([v])]), Arr([v]), ListT(Ref(body));
    assert w.fields.Keys == {"Many"} && w.fields["Many"] == items && items.items[0] == v;
    assert Accepts(p.types, p.outside, list, items);
    assert Decode(p, list, items).None?;
    var variants := p.types[op].variants;
    assert variants[0] == Many(body) && FirstWith(variants, "Many", false) == Some(variants[0]);
    assert OnlyKey(w.fields) == "Many";
    assert DecodeBody(p, op, "Many", list, items).None?;
  }

  lemma TaggedIsPlanned(p: Plan, t: Target, op: string, body: string, frame: string)
    requires TaggedSurface(p.types, t, op, body, frame)
    ensures Emits(p.types, t, [op, body, frame], {op, body, frame}, {op, body, frame})
    ensures Lowerable(p.types, {op, body, frame} + Bodies(p.types, t))
    ensures PlanClosed(p.types, t, [op, body, frame], {op, body, frame})
  {
    var all := {op, body, frame};
    TaggedShape(p.types, t, op, body, frame);
    TaggedBodies(p.types, t, op, body, frame);
    hide Allowed, Bodies, DeclRefs, Lowerable;
    TriangleIsEmitted(p.types, t, op, body, frame);
    assert all + {} == all && {op, body} + {frame} == all && all == set n | n in all && n !in Bodies(p.types, t);
    hide Triangle, PlanClosed, RootSet;
    PlanClosedIff(p.types, t, [op, body, frame], all, all);
  }

  lemma OnlyRecordRefers(p: Plan, t: Target, op: string, body: string, frame: string)
    requires TaggedSurface(p.types, t, op, body, frame)
    ensures NoTaggedFields(p)
  {
    TaggedShape(p.types, t, op, body, frame);
    hide DeclRefs;
  }

  lemma NodeKinds(p: Plan)
    ensures RecordKinds(p, NODE.fields) == {NumberHelper}
  {
    assert NODE.fields["node"].ty == U64 && FieldKinds(p, U64) == {NumberHelper};
  }

  lemma TaggedEmits(p: Plan, t: Target, op: string, body: string, frame: string)
    requires TaggedSurface(p.types, t, op, body, frame) && CodecOf(p, t, {op, body, frame})
    ensures NumberHelper in p.helpers && ListHelper in p.helpers
  {
    var names, bodies, variants := {op, body, frame}, Bodies(p.types, t), p.types[op].variants;
    NodeKinds(p);
    assert variants[0] == Many(body) && Many(body) in variants && Kept(p, op, Many(body));
    assert p.helpers == EmittedHelpers(p, names, bodies);
    hide CodecOf, Bodies, EmittedHelpers, RecordKinds;
    KindsAreEmitted(p, names, bodies, body);
    KindsAreEmitted(p, names, bodies, op);
    assert ListHelper in Kinds(ListT(Ref(body)));
  }

  lemma TaggedHelpers(p: Plan, t: Target, op: string, body: string, frame: string)
    requires TaggedSurface(p.types, t, op, body, frame) && CodecOf(p, t, {op, body, frame})
    ensures HelpersDefined(p, {op, body, frame})
  {
    TaggedEmits(p, t, op, body, frame);
    hide CodecOf;
    assert DeclDefined(p, body) && DeclDefined(p, op) by {
      NeedsOfNode(p, body);
      hide Needs;
      assert forall k <- NODE.fields :: NODE.fields[k].ty == U64;
      assert PayloadDefined(p, op, Many(body)) && PayloadDefined(p, op, NOTHING);
    }
    hide DeclDefined;
  }

  lemma NeedsOfNode(p: Plan, body: string)
    requires body in p.types && p.types[body].Record?
    ensures Needs(p, U64) == {NumberHelper} && Needs(p, ListT(Ref(body))) == {ListHelper}
  {
    assert Needs(p, Ref(body)) == {};
  }

  lemma BodyIsMisread(p: Plan, t: Target, op: string, body: string, frame: string, n: nat)
    requires TaggedSurface(p.types, t, op, body, frame) && n <= U64_MAX
    requires body in p.tagged && p.tagged[body] == "Tag" && p.outside.external == {}
    ensures ScalarAliases(p.types)
    ensures Accepts(p.types, p.outside, Ref(body), NodeValue(n)) && Decode(p, Ref(body), NodeValue(n)).None?
  {
    var v := NodeValue(n);
    assert v.fields.Keys == {"node"} && "node" != "Tag" && "Tag" !in v.fields.Keys;
  }
}
