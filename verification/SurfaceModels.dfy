/** What a finished surface build means: the model reads every definition, and the envelope, as the
    schema does. */
module SurfaceModels {
  import opened Common
  import opened Documents
  import opened WireModel
  import opened EmissionPlan
  import opened SurfaceSchema
  import opened SurfaceMeaning
  import opened SurfaceKeywords
  import opened SurfaceOutcome

  // ---------------------------------------------------------------- from a build to a model

  function ModelOf(entries: seq<Named>): (types: Types)
    ensures types.Keys == Names(entries)
  {
    if entries == [] then map[]
    else
      var last := entries[|entries| - 1];
      assert entries == entries[..|entries| - 1] + [last];
      ModelOf(entries[..|entries| - 1])[last.name := last.decl]
  }

  lemma {:induction false} ModelEntries(entries: seq<Named>)
    requires Distinct(entries)
    ensures forall t <- entries :: ModelOf(entries)[t.name] == t.decl
  {
    if entries != [] {
      var init, last := entries[..|entries| - 1], entries[|entries| - 1];
      ModelEntries(init);
      forall t | t in entries ensures ModelOf(entries)[t.name] == t.decl {
        if t != last {
          var i :| 0 <= i < |entries| && entries[i] == t;
          assert init[i] == t;
        }
      }
    }
  }

  lemma {:induction false} AgreedValues(enums: map<string, seq<string>>, node: Node, x: (string, seq<string>))
    requires EnumsAgree(enums, node) && x in EnumsOf(node)
    ensures x.0 in enums && enums[x.0] == x.1
  {
    match node {
      case OneOfN(branches, _) =>
        var i :| 0 <= i < |branches| && x in EnumsOf(branches[i]);
        AgreedValues(enums, branches[i], x);
      case ArrayN(items, _) => AgreedValues(enums, items.value, x);
      case ObjectN(properties, _, _, _, _) =>
        var k :| k in properties && x in EnumsOf(properties[k]);
        AgreedValues(enums, properties[k], x);
      case EnumN(_, _, _) =>
    }
  }

  /** The envelope's name and its inline record's name are theirs alone. */
  ghost predicate CleanRoot(docs: Docs, root: Root, enums: map<string, seq<string>>) {
    root.EnvelopeRoot? ==>
      && root.name !in docs.local.Keys + docs.shared.Keys + enums.Keys
      && forall p <- root.properties ::
           && EnumsAgree(enums, p.1)
           && (!p.1.RefN? ==> p.0 != root.name && p.0 !in docs.local.Keys + docs.shared.Keys + enums.Keys)
  }

  lemma EnumEntry(docs: Docs, root: Root, enums: map<string, seq<string>>, x: (string, seq<string>))
    requires Clean(docs, enums) && CleanRoot(docs, root, enums) && x in AllEnums(docs, root)
    ensures x.0 in enums && enums[x.0] == x.1
  {
    if d :| d in AllDefs(docs) && Live(docs, d) && x in InlineEnums(DefOf(docs, d)) {
      AgreedValues(enums, DefOf(docs, d), x);
    } else {
      var i :| 0 <= i < |root.properties| && x in EnumsOf(root.properties[i].1);
      AgreedValues(enums, root.properties[i].1, x);
    }
  }

  lemma LoweredKinds(docs: Docs, inShared: bool, node: Node)
    ensures LowerDecl(docs, inShared, node).Some? ==>
              var d := LowerDecl(docs, inShared, node).value;
              !d.Envelope? && (d.Alias? ==> IsScalar(d.target)) && (d.Union? ==> DistinctTags(d.variants))
  {
  }

  /** With one meaning per name, an entry is what its name says it is. */
  lemma EntryIsNamesake(docs: Docs, root: Root, enums: map<string, seq<string>>, t: Named)
    requires Clean(docs, enums) && CleanRoot(docs, root, enums) && EntryOk(docs, root, t)
    ensures t.name in docs.local ==> LowerDecl(docs, false, docs.local[t.name]) == Some(t.decl)
    ensures t.name in docs.shared && t.name !in docs.local ==>
              LowerDecl(docs, true, docs.shared[t.name]) == Some(t.decl)
    ensures t.name in enums ==> t.decl == Enum(enums[t.name])
    ensures t.decl.Alias? ==> IsScalar(t.decl.target)
    ensures t.decl.Envelope? ==> root.EnvelopeRoot? && t.name == root.name
  {
    hide LowerDecl, LowerExpr, LowerBranches, AllEnums, EnumsAgree, InlineEnums, RefsApart;
    if t.name in docs.local {
      LoweredKinds(docs, false, docs.local[t.name]);
    }
    if t.name in docs.shared {
      LoweredKinds(docs, true, docs.shared[t.name]);
    }
    if t.decl.Enum? && (t.name, t.decl.values) in AllEnums(docs, root) {
      EnumEntry(docs, root, enums, (t.name, t.decl.values));
    }
  }

  /** Every build of clean documents is a faithful model. */
  lemma BuiltIsFaithful(docs: Docs, root: Root, enums: map<string, seq<string>>, entries: seq<Named>)
    requires Clean(docs, enums) && CleanRoot(docs, root, enums) && Built(docs, root, entries)
    ensures Faithful(docs, enums, ModelOf(entries))
  {
    var types := ModelOf(entries);
    ModelEntries(entries);
    hide Clean, CleanRoot, LowerDecl, EntryOk, DeclRefs, EnvelopeBuilt;
    forall n | n in types
      ensures types[n].Alias? ==> IsScalar(types[n].target)
      ensures DeclRefs(types[n]) <= types.Keys
      ensures n in docs.local ==> LowerDecl(docs, false, docs.local[n]) == Some(types[n])
      ensures n in docs.shared && n !in docs.local ==> LowerDecl(docs, true, docs.shared[n]) == Some(types[n])
      ensures n in enums ==> types[n] == Enum(enums[n])
    {
      var t :| t in entries && t.name == n;
      EntryIsNamesake(docs, root, enums, t);
    }
  }

  /** Without the envelope's own name in play, references are to definitions and inline enums. */
  ghost predicate NamesKnown(docs: Docs, enums: map<string, seq<string>>, names: set<string>) {
    names <= docs.local.Keys + docs.shared.Keys + enums.Keys
  }

  lemma {:induction false} ExprNamesKnown(docs: Docs, enums: map<string, seq<string>>, inShared: bool, node: Node,
                                          seen: set<DefId>)
    requires Clean(docs, enums) && EnumsAgree(enums, node) && LowerExpr(docs, inShared, node, seen).Some?
    ensures NamesKnown(docs, enums, Refs(LowerExpr(docs, inShared, node, seen).value))
    decreases AllDefs(docs) - seen, node
  {
    if node.RefN? {
      var d := Lookup(docs, inShared, node).value;
      if NullableInner(DefOf(docs, d)).Some? {
        ExprNamesKnown(docs, enums, inShared, DefOf(docs, d), seen + {d});
      }
    } else if NullableInner(node).Some? {
      ExprNamesKnown(docs, enums, inShared, NullableInner(node).value, seen);
    } else if node.ArrayN? && node.items.value != BYTE_NODE {
      ExprNamesKnown(docs, enums, inShared, node.items.value, seen);
    }
  }

  /** The node a declaration's expression comes from. */
  lemma ExprSource(docs: Docs, enums: map<string, seq<string>>, inShared: bool, node: Node,
                   e: TypeExpr) returns (source: Node)
    requires (node.EnumN? || EnumsAgree(enums, node)) && LowerDecl(docs, inShared, node).Some?
    requires e in Exprs(LowerDecl(docs, inShared, node).value)
    ensures EnumsAgree(enums, source) && LowerExpr(docs, inShared, source, {}) == Some(e)
  {
    hide LowerExpr;
    var d := LowerDecl(docs, inShared, node).value;
    if node.ObjectN? {
      var k :| k in d.fields && d.fields[k].ty == e;
      source := node.properties[k];
    } else if node.OneOfN? {
      var i :| 0 <= i < |d.variants| && d.variants[i].payload == Some(e);
      BranchAt(docs, inShared, node.branches, i);
      source := node.branches[i].properties[d.variants[i].tag];
    } else {
      source := node;
    }
  }

  lemma DeclNamesKnown(docs: Docs, enums: map<string, seq<string>>, inShared: bool, node: Node)
    requires Clean(docs, enums) && (node.EnumN? || EnumsAgree(enums, node)) && LowerDecl(docs, inShared, node).Some?
    ensures NamesKnown(docs, enums, DeclRefs(LowerDecl(docs, inShared, node).value))
  {
    hide LowerExpr, LowerDecl, Clean, EnumsAgree, Exprs;
    var d := LowerDecl(docs, inShared, node).value;
    forall e | e in Exprs(d) ensures NamesKnown(docs, enums, Refs(e)) {
      var source := ExprSource(docs, enums, inShared, node, e);
      ExprNamesKnown(docs, enums, inShared, source, {});
    }
  }

  /** A record shape with the demand for an object spelled out. */
  function AsObject(node: Node): Node {
    if node.ObjectN? then node.(typed := true) else node
  }

  /** The demand changes neither how the shape lowers nor which inline enums it has. */
  lemma ObjectDemanded(docs: Docs, enums: map<string, seq<string>>, node: Node)
    ensures LowerRecord(docs, false, node).Some? ==>
              node.ObjectN? && LowerDecl(docs, false, AsObject(node)) == LowerRecord(docs, false, node)
    ensures EnumsAgree(enums, AsObject(node)) <==> EnumsAgree(enums, node)
    ensures Silent(AsObject(node)) <==> Silent(node)
  {
    hide LowerExpr;
    if LowerRecord(docs, false, node).Some? {
      assert AsObject(node).properties == node.properties;
      assert LowerRecord(docs, false, AsObject(node)) == LowerRecord(docs, false, node);
    }
  }

  /** It only turns down what is not an object. */
  lemma DemandsObject(docs: Docs, r: Reader, node: Node, v: Json)
    requires node.ObjectN?
    ensures Valid(docs, r, false, AsObject(node), v, {}) <==> Valid(docs, r, false, node, v, {}) && v.Obj?
    ensures Kept(docs, r, false, AsObject(node), v, {}) <==> Kept(docs, r, false, node, v, {})
  {
  }

  lemma EntryNamesKnown(docs: Docs, root: Root, enums: map<string, seq<string>>, t: Named)
    requires Clean(docs, enums) && CleanRoot(docs, root, enums) && EntryOk(docs, root, t)
    ensures NamesKnown(docs, enums, DeclRefs(t.decl))
  {
    assert NamesKnown(docs, enums, {});
    hide LowerDecl, LowerExpr, LowerBranches, AllEnums, EnumsAgree, InlineEnums, RefsApart, NamesKnown;
    if t.name in docs.local && LowerDecl(docs, false, docs.local[t.name]) == Some(t.decl) {
      assert DefOf(docs, DefId(false, t.name)) == docs.local[t.name];
      DeclNamesKnown(docs, enums, false, docs.local[t.name]);
    } else if t.name in docs.shared && LowerDecl(docs, true, docs.shared[t.name]) == Some(t.decl) {
      assert DefOf(docs, DefId(true, t.name)) == docs.shared[t.name];
      DeclNamesKnown(docs, enums, true, docs.shared[t.name]);
    } else if !t.decl.Enum? && !t.decl.Envelope? {
      var p :| p in root.properties && p.0 == t.name && !p.1.RefN? && LowerRecord(docs, false, p.1) == Some(t.decl);
      ObjectDemanded(docs, enums, p.1);
      DeclNamesKnown(docs, enums, false, AsObject(p.1));
    }
  }

  /** An entry named like a definition, an inline enum or an inline record is not an envelope. */
  lemma OnlyRootIsEnvelope(docs: Docs, root: Root, enums: map<string, seq<string>>, entries: seq<Named>, n: string)
    requires Clean(docs, enums) && CleanRoot(docs, root, enums) && Built(docs, root, entries) && n in ModelOf(entries)
    ensures ModelOf(entries)[n].Envelope? ==> root.EnvelopeRoot? && n == root.name
  {
    hide Clean, CleanRoot, LowerDecl, EntryOk, DeclRefs, EnvelopeBuilt;
    ModelEntries(entries);
    var t :| t in entries && t.name == n;
    EntryIsNamesake(docs, root, enums, t);
  }

  lemma EnvelopeBodyIsNamed(docs: Docs, root: Root, enums: map<string, seq<string>>, entries: seq<Named>)
    requires Clean(docs, enums) && CleanRoot(docs, root, enums) && Built(docs, root, entries) && root.EnvelopeRoot?
    ensures root.name in ModelOf(entries) && ModelOf(entries)[root.name].Envelope?
    ensures ModelOf(entries)[root.name].body in ModelOf(entries) && ModelOf(entries)[root.name].body != root.name
  {
    hide Clean, Built, LowerDecl, LowerRecord, EnumsAgree;
    var t := EnvelopeEntry(docs, root, entries);
    assert root.properties[0] in root.properties;
  }

  /** ... and one the emission plan can work on: references resolve, never to an envelope. */
  lemma BuiltIsResolved(docs: Docs, root: Root, enums: map<string, seq<string>>, entries: seq<Named>)
    requires Clean(docs, enums) && CleanRoot(docs, root, enums) && Built(docs, root, entries)
    ensures Resolved(ModelOf(entries))
  {
    var types := ModelOf(entries);
    ModelEntries(entries);
    hide Clean, CleanRoot, LowerDecl, EntryOk, DeclRefs, EnvelopeBuilt, NamesKnown;
    forall n | n in types
      ensures Successors(types[n]) <= types.Keys && forall r <- Successors(types[n]) :: !types[r].Envelope?
    {
      var t :| t in entries && t.name == n;
      OnlyRootIsEnvelope(docs, root, enums, entries, n);
      if types[n].Envelope? {
        EnvelopeBodyIsNamed(docs, root, enums, entries);
      }
      forall r | r in Successors(types[n]) ensures r in types && !types[r].Envelope? {
        if r in DeclRefs(types[n]) {
          EntryNamesKnown(docs, root, enums, t);
          RootIsNotKnown(docs, root, enums, DeclRefs(types[n]));
        }
        OnlyRootIsEnvelope(docs, root, enums, entries, r);
      }
    }
  }

  lemma RootIsNotKnown(docs: Docs, root: Root, enums: map<string, seq<string>>, names: set<string>)
    requires CleanRoot(docs, root, enums) && NamesKnown(docs, enums, names)
    ensures root.EnvelopeRoot? ==> root.name !in names
  {
  }

  // ---------------------------------------------------------------- meaning

  /** The root's schema: one property, required, and nothing else. */
  ghost predicate RootValid(docs: Docs, r: Reader, root: Root, v: Json)
    requires root.EnvelopeRoot? && |root.properties| == 1
  {
    var tag := root.properties[0].0;
    && BoundsHold(r, root.extra, v) && v.Obj? && v.fields.Keys == {tag}
    && Valid(docs, r, false, root.properties[0].1, v.fields[tag], {})
  }

  ghost predicate RootKept(docs: Docs, r: Reader, root: Root, v: Json)
    requires root.EnvelopeRoot? && |root.properties| == 1
  {
    var tag := root.properties[0].0;
    && BoundsHold(r, root.extra, v)
    && (v.Obj? && tag in v.fields ==> Kept(docs, r, false, root.properties[0].1, v.fields[tag], {}))
  }

  /** What the model accepts fits it. */
  lemma {:induction false} AcceptedFits(types: Types, o: Outside, e: TypeExpr, v: Json)
    requires ScalarAliases(types) && o.external == {} && Accepts(types, o, e, v)
    ensures Fits(v)
    decreases v, 10 + Rank(e)
  {
    match e {
      case ListT(element) =>
        forall i | 0 <= i < |v.items| ensures Fits(v.items[i]) {
          AcceptedFits(types, o, element, v.items[i]);
        }
      case NullableT(inner) =>
        if !v.Null? {
          AcceptedFits(types, o, inner, v);
        }
      case Ref(n) =>
        match types[n] {
          case Alias(target) => AcceptedFits(types, o, target, v);
          case Record(fields) =>
            forall k | k in v.fields ensures Fits(v.fields[k]) {
              AcceptedFits(types, o, fields[k].ty, v.fields[k]);
            }
          case Union(variants) => AcceptedUnionFits(types, o, variants, v);
          case Envelope(tag, body) => AcceptedFits(types, o, Ref(body), v.fields[tag]);
          case Enum(_) =>
        }
      case _ =>
    }
  }

  lemma {:induction false} AcceptedUnionFits(types: Types, o: Outside, variants: seq<Variant>, v: Json)
    requires ScalarAliases(types) && o.external == {} && AcceptsUnion(types, o, variants, v)
    ensures Fits(v)
    decreases v, 5, |variants|
  {
    var first := variants[0];
    if first.payload.Some? && v.Obj? && v.fields.Keys == {first.tag} {
      AcceptedFits(types, o, first.payload.value, v.fields[first.tag]);
    } else if v != Str(first.tag) || first.payload.Some? {
      AcceptedUnionFits(types, o, variants[1..], v);
    }
  }

  /** The model takes a value, and no keyword it does not look at speaks against it, exactly when the schema
      takes the value and the model can carry its numbers. */
  ghost predicate SameReading(docs: Docs, r: Reader, types: Types, inShared: bool, node: Node, e: TypeExpr, v: Json)
    requires ScalarAliases(types)
  {
    Accepts(types, r.o, e, v) && Kept(docs, r, inShared, node, v, {}) <==>
      Valid(docs, r, inShared, node, v, {}) && Fits(v)
  }

  /** Both readings agree without the keywords lowering drops, and the whole schema narrows by those. */
  lemma SameFromParts(docs: Docs, r: Reader, types: Types, inShared: bool, node: Node, e: TypeExpr, v: Json)
    requires ScalarAliases(types) && r.o.external == {} && Narrows(docs, r, inShared, node, v, {})
    requires Agrees(Accepts(types, r.o, e, v), Valid(docs, Partial(r.o), inShared, node, v, {}), true, Fits(v))
    ensures SameReading(docs, r, types, inShared, node, e, v)
  {
    hide Accepts, Valid, Kept, Fits, ScalarAliases;
    if Accepts(types, r.o, e, v) {
      AcceptedFits(types, r.o, e, v);
    }
  }

  lemma DeclMeaning(docs: Docs, r: Reader, enums: map<string, seq<string>>, types: Types, inShared: bool, node: Node,
                    n: string, v: Json)
    requires Setting(docs, r.o, enums, types) && NullsAlike(docs, node, types)
    requires node.EnumN? || EnumsAgree(enums, node)
    requires n in types && LowerDecl(docs, inShared, node) == Some(types[n])
    ensures ScalarAliases(types) && SameReading(docs, r, types, inShared, node, Ref(n), v)
  {
    hide Accepts, Valid, Kept, Fits, Setting, FlatTypes, OddTypes, EnumsAgree, LowerDecl, ScalarAliases, Silent,
         SilentDocs, SameReading, Narrows, DeclRefs, Exprs;
    NullsAlikeOdd(docs, node, types);
    SettingAt(docs, r.o, enums, types, n);
    DeclAgrees(docs, r.o, enums, types, inShared, node, n, v, {});
    if FlatTypes(types) {
      DeclNarrows(docs, r, enums, types, inShared, node, n, v, {});
    } else {
      SilentNarrows(docs, r, inShared, node, v, {});
    }
    SameFromParts(docs, r, types, inShared, node, Ref(n), v);
  }

  lemma ReferenceMeaning(docs: Docs, r: Reader, enums: map<string, seq<string>>, types: Types, node: Node, v: Json)
    requires Setting(docs, r.o, enums, types) && NullsAlike(docs, node, types) && node.RefN? && node.name in types
    requires LowerExpr(docs, false, node, {}) == Some(Ref(node.name))
    ensures ScalarAliases(types) && SameReading(docs, r, types, false, node, Ref(node.name), v)
  {
    NullsAlikeOdd(docs, node, types);
    assert ScalarAliases(types) && r.o.external == {} && NullableAliases(docs, {}) && EnumsAgree(enums, node);
    hide Accepts, Valid, Kept, Fits, Setting, FlatTypes, OddTypes, EnumsAgree, LowerExpr, SameReading, Narrows,
         Silent, SilentDocs;
    ExprAgrees(docs, r.o, enums, types, false, node, {}, {}, v);
    if FlatTypes(types) {
      ExprNarrows(docs, r, enums, types, false, node, {}, {}, v, Ref(node.name));
    } else {
      SilentNarrows(docs, r, false, node, v, {});
    }
    SameFromParts(docs, r, types, false, node, Ref(node.name), v);
  }

  /** Where null means the same under every nullable, a modelled definition accepts exactly the valid values
      whose numbers the model can carry, up to keywords it does not look at; and it agrees with the schema on
      a value exactly when no such keyword is effective there. */
  lemma DefinitionMeaning(docs: Docs, r: Reader, enums: map<string, seq<string>>, types: Types, d: DefId, v: Json)
    requires Setting(docs, r.o, enums, types)
    requires Live(docs, d) && d.name in types && NullsAlike(docs, DefOf(docs, d), types)
    ensures ScalarAliases(types) && SameReading(docs, r, types, d.inShared, DefOf(docs, d), Ref(d.name), v)
    ensures
      var node := DefOf(docs, d);
      (Accepts(types, r.o, Ref(d.name), v) <==> Valid(docs, r, d.inShared, node, v, {}) && Fits(v)) <==>
      (Accepts(types, r.o, Ref(d.name), v) ==> Kept(docs, r, d.inShared, node, v, {}))
  {
    hide Accepts, Valid, Kept, Fits, NullsAlike, EnumsAgree, LowerDecl;
    DeclMeaning(docs, r, enums, types, d.inShared, DefOf(docs, d), d.name, v);
  }

  /** The body of a frame is an object, where the envelope's property is a record of its own that does not say
      so; its lowering takes it to have said so. */
  predicate BodyIsObject(root: Root, v: Json)
    requires root.EnvelopeRoot? && |root.properties| == 1
  {
    var p := root.properties[0];
    p.1.ObjectN? && !p.1.typed && v.Obj? && p.0 in v.fields ==> v.fields[p.0].Obj?
  }

  /** ... and so does the envelope of a build of a clean schema, of frames whose body is an object. */
  lemma EnvelopeMeaning(docs: Docs, r: Reader, root: Root, enums: map<string, seq<string>>, entries: seq<Named>,
                        v: Json)
    requires Clean(docs, enums) && CleanRoot(docs, root, enums) && Built(docs, root, entries) && r.o.external == {}
    requires root.EnvelopeRoot? && |root.properties| == 1
    requires NullsAlike(docs, root.properties[0].1, ModelOf(entries))
    ensures root.name in ModelOf(entries) && ScalarAliases(ModelOf(entries))
    ensures Accepts(ModelOf(entries), r.o, Ref(root.name), v) && RootKept(docs, r, root, v) <==>
            RootValid(docs, r, root, v) && Fits(v) && BodyIsObject(root, v)
  {
    hide Accepts, Valid, Kept, Clean, CleanRoot, Built, NullsAlike, ModelOf, CarriedBy, BoundsHold;
    var types := ModelOf(entries);
    BuiltIsFaithful(docs, root, enums, entries);
    assert ScalarAliases(types);
    hide Faithful;
    var t := EnvelopeEntry(docs, root, entries);
    EnvelopeReads(types, r.o, root.name, v);
    var tag, body := t.decl.tag, t.decl.body;
    if v.Obj? && v.fields.Keys == {tag} {
      CarrierMeaning(docs, r, root, enums, entries, body, v.fields[tag]);
      assert Fits(v) <==> Fits(v.fields[tag]);
    }
  }

  /** Read without the keywords lowering drops, the envelope means what its schema does exactly when its
      property is a reference or demands an object. */
  lemma EnvelopeAgreesIff(docs: Docs, o: Outside, root: Root, enums: map<string, seq<string>>, entries: seq<Named>)
    requires Clean(docs, enums) && CleanRoot(docs, root, enums) && Built(docs, root, entries) && o.external == {}
    requires root.EnvelopeRoot? && |root.properties| == 1
    requires NullsAlike(docs, root.properties[0].1, ModelOf(entries))
    ensures root.name in ModelOf(entries) && ScalarAliases(ModelOf(entries))
    ensures
      var node := root.properties[0].1;
      (forall v :: Accepts(ModelOf(entries), o, Ref(root.name), v) <==>
                   RootValid(docs, Partial(o), root, v) && Fits(v)) <==> (node.ObjectN? ==> node.typed)
  {
    hide Accepts, Clean, CleanRoot, Built, NullsAlike, ModelOf, RootValid, RootKept, BodyIsObject, Fits;
    var node := root.properties[0].1;
    BuiltIsFaithful(docs, root, enums, entries);
    assert ScalarAliases(ModelOf(entries));
    hide Faithful;
    var _ := EnvelopeEntry(docs, root, entries);
    forall v ensures Accepts(ModelOf(entries), o, Ref(root.name), v) <==>
                     RootValid(docs, Partial(o), root, v) && Fits(v) && BodyIsObject(root, v)
    {
      EnvelopeMeaning(docs, Partial(o), root, enums, entries, v);
      PartialKeeps(docs, o, root, v);
    }
    if node.ObjectN? && !node.typed {
      UntypedTakesNull(docs, o, root);
    }
    if node.ObjectN? ==> node.typed {
      DemandedIsObject(root);
    }
  }

  lemma DemandedIsObject(root: Root)
    requires root.EnvelopeRoot? && |root.properties| == 1
    requires root.properties[0].1.ObjectN? ==> root.properties[0].1.typed
    ensures forall v :: BodyIsObject(root, v)
  {
  }

  /** Without the demand, a frame whose body is null is valid. */
  lemma UntypedTakesNull(docs: Docs, o: Outside, root: Root)
    requires root.EnvelopeRoot? && |root.properties| == 1
    requires root.properties[0].1.ObjectN? && !root.properties[0].1.typed
    ensures
      var v := Obj(map[root.properties[0].0 := Null]);
      RootValid(docs, Partial(o), root, v) && Fits(v) && !BodyIsObject(root, v)
  {
    var tag := root.properties[0].0;
    assert map[tag := Null].Keys == {tag};
    assert Valid(docs, Partial(o), false, root.properties[0].1, Null, {});
  }

  lemma PartialKeeps(docs: Docs, o: Outside, root: Root, v: Json)
    requires root.EnvelopeRoot? && |root.properties| == 1
    ensures RootKept(docs, Partial(o), root, v)
  {
    hide Kept;
    var p := root.properties[0];
    if v.Obj? && p.0 in v.fields {
      PartialIsKept(docs, o, false, p.1, v.fields[p.0], {});
    }
  }

  lemma EnvelopeEntry(docs: Docs, root: Root, entries: seq<Named>) returns (t: Named)
    requires Built(docs, root, entries) && root.EnvelopeRoot?
    ensures IsEnvelopeOf(root, t) && root.name in ModelOf(entries) && ModelOf(entries)[root.name] == t.decl
    ensures t.decl.body in ModelOf(entries) && CarriedBy(docs, root.properties[0], t.decl.body)
  {
    hide EntryOk, CarriedBy, DeclRefs;
    ModelEntries(entries);
    t :| t in entries && IsEnvelopeOf(root, t) && t.decl.body in Names(entries) && CarriedBy(docs, root.properties[0],
                                                                                             t.decl.body);
  }

  lemma EnvelopeReads(types: Types, o: Outside, n: string, v: Json)
    requires ScalarAliases(types) && n in types && types[n].Envelope? && n !in o.external
    ensures Accepts(types, o, Ref(n), v) <==>
            v.Obj? && v.fields.Keys == {types[n].tag} && Accepts(types, o, Ref(types[n].body), v.fields[types[n].tag])
  {
  }

  lemma CarrierMeaning(docs: Docs, r: Reader, root: Root, enums: map<string, seq<string>>, entries: seq<Named>,
                       body: string, v: Json)
    requires Clean(docs, enums) && CleanRoot(docs, root, enums) && Built(docs, root, entries)
    requires root.EnvelopeRoot? && |root.properties| == 1 && CarriedBy(docs, root.properties[0], body)
    requires NullsAlike(docs, root.properties[0].1, ModelOf(entries))
    requires body in ModelOf(entries) && r.o.external == {} && Faithful(docs, enums, ModelOf(entries))
    ensures ScalarAliases(ModelOf(entries))
    ensures
      var node := root.properties[0].1;
      Accepts(ModelOf(entries), r.o, Ref(body), v) && Kept(docs, r, false, node, v, {}) <==>
        Valid(docs, r, false, node, v, {}) && Fits(v) && (node.ObjectN? && !node.typed ==> v.Obj?)
  {
    hide Accepts, Valid, Kept, Clean, Built, FlatTypes, OddTypes, Fits, Faithful, EnumsAgree, LowerDecl, LowerRecord;
    var types, p := ModelOf(entries), root.properties[0];
    assert p in root.properties;
    if p.1.RefN? {
      ReferenceMeaning(docs, r, enums, types, p.1, v);
    } else {
      InlineEntry(docs, root, enums, entries, body);
      ObjectDemanded(docs, enums, p.1);
      DemandsObject(docs, r, p.1, v);
      assert NullsAlike(docs, AsObject(p.1), types) by {
        hide Silent;
      }
      DeclMeaning(docs, r, enums, types, false, AsObject(p.1), body, v);
      if p.1.typed {
        TypedIsObject(docs, r, p.1, v);
      }
    }
  }

  lemma TypedIsObject(docs: Docs, r: Reader, node: Node, v: Json)
    requires node.ObjectN? && node.typed
    ensures Valid(docs, r, false, node, v, {}) ==> v.Obj?
  {
  }

  /** The inline record is the only entry that bears the tag. */
  lemma InlineEntry(docs: Docs, root: Root, enums: map<string, seq<string>>, entries: seq<Named>, tag: string)
    requires Clean(docs, enums) && CleanRoot(docs, root, enums) && Built(docs, root, entries) && tag in ModelOf(entries)
    requires root.EnvelopeRoot? && |root.properties| == 1 && !root.properties[0].1.RefN? && tag == root.properties[0].0
    ensures LowerRecord(docs, false, root.properties[0].1) == Some(ModelOf(entries)[tag])
  {
    hide LowerExpr, LowerBranches, AllEnums, EnumsAgree, DeclRefs, EnvelopeBuilt, RefsApart;
    ModelEntries(entries);
    var t :| t in entries && t.name == tag;
    if t.decl.Enum? && (t.name, t.decl.values) in AllEnums(docs, root) {
      EnumEntry(docs, root, enums, (t.name, t.decl.values));
    }
  }
}
