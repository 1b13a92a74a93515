/** Where a lowered model and its schema part ways. */
module SurfaceEdges {
  import opened Common
  import opened Documents
  import opened WireModel
  import opened SurfaceSchema
  import opened SurfaceMeaning
  import opened SurfaceOutcome
  import opened SurfaceModels

  // ---------------------------------------------------------------- an inline enum takes a name

  /** The type named `n` reads every value as the node does. */
  ghost predicate ReadsAlike(docs: Docs, o: Outside, types: Types, n: string, node: Node)
    requires ScalarAliases(types)
  {
    forall v :: Accepts(types, o, Ref(n), v) <==> Valid(docs, Partial(o), false, node, v, {}) && Fits(v)
  }

  function ValueSet(values: seq<string>): set<string> {
    set s | s in values
  }

  lemma EnumTypeReads(types: Types, o: Outside, n: string, values: seq<string>, v: Json)
    requires ScalarAliases(types) && n in types && types[n] == Enum(values) && n !in o.external
    ensures Accepts(types, o, Ref(n), v) <==> v.Str? && v.s in ValueSet(values)
  {
  }

  lemma EnumNodeReads(docs: Docs, o: Outside, node: Node, v: Json)
    requires node.EnumN?
    ensures Valid(docs, Partial(o), false, node, v, {}) && Fits(v) <==> v.Str? && v.s in ValueSet(node.values)
  {
  }

  /** A further enum of one name, inline or a definition the builder passes over, has the first one's type; no
      harm exactly when both list the same values. */
  lemma SharedEnumAgreesIff(docs: Docs, o: Outside, types: Types, n: string, first: seq<string>, node: Node)
    requires ScalarAliases(types) && n in types && types[n] == Enum(first) && n !in o.external && node.EnumN?
    ensures node.typeName == Some(n) && IsPascal(n) ==> LowerExpr(docs, false, node, {}) == Some(Ref(n))
    ensures ReadsAlike(docs, o, types, n, node) <==> ValueSet(first) == ValueSet(node.values)
  {
    hide Accepts, Valid, Fits, ValueSet;
    forall v
      ensures Accepts(types, o, Ref(n), v) <==> v.Str? && v.s in ValueSet(first)
      ensures Valid(docs, Partial(o), false, node, v, {}) && Fits(v) <==> v.Str? && v.s in ValueSet(node.values)
    {
      EnumTypeReads(types, o, n, first, v);
      EnumNodeReads(docs, o, node, v);
    }
    if ReadsAlike(docs, o, types, n, node) {
      forall s ensures s in ValueSet(first) <==> s in ValueSet(node.values) {
        assert Accepts(types, o, Ref(n), Str(s)) <==> Valid(docs, Partial(o), false, node, Str(s), {}) && Fits(Str(s));
      }
    }
  }

  /** In a finished build a definition that has a type of another shape than its own lost its name to an inline
      enum, or to the envelope or its inline record. */
  lemma DroppedOnlyForEnum(docs: Docs, root: Root, entries: seq<Named>, d: DefId)
    requires Built(docs, root, entries) && Live(docs, d) && d.name in ModelOf(entries)
    requires LowerDecl(docs, d.inShared, DefOf(docs, d)) != Some(ModelOf(entries)[d.name])
    requires root.EnvelopeRoot? ==> d.name != root.name && forall p <- root.properties :: p.1.RefN? || p.0 != d.name
    ensures
      var decl := ModelOf(entries)[d.name];
      decl.Enum? && decl.values != [] && (d.name, decl.values) in AllEnums(docs, root)
  {
    hide AllEnums, LowerDecl, LowerRecord, DeclRefs, EnvelopeBuilt;
    ModelEntries(entries);
    var t :| t in entries && t.name == d.name;
    assert EntryOk(docs, root, t);
  }

  predicate InLength(minLength: Option<nat>, maxLength: Option<nat>, s: string) {
    (minLength.Some? ==> minLength.value <= |s|) && (maxLength.Some? ==> |s| <= maxLength.value)
  }

  /** No value of a node fits the model. */
  ghost predicate Unreadable(docs: Docs, o: Outside, node: Node) {
    forall w :: !(Valid(docs, Partial(o), false, node, w, {}) && Fits(w))
  }

  /** What a union must look like to take these strings only. */
  ghost predicate UnitsAre(docs: Docs, o: Outside, branches: seq<Node>, values: set<string>)
    requires LowerBranches(docs, false, branches).Some?
  {
    var variants := LowerBranches(docs, false, branches).value;
    && (forall s :: s in values <==> Variant(s, None) in variants)
    && forall b <- branches :: b.ObjectN? ==> forall k <- b.properties :: Unreadable(docs, o, b.properties[k])
  }

  /** A definition, by its kind, takes these strings and nothing else. */
  ghost predicate TakesJust(docs: Docs, o: Outside, node: Node, values: set<string>)
    requires node.OneOfN? ==> LowerDecl(docs, false, node).Some?
  {
    match node
    case EnumN(_, listed, _) => ValueSet(listed) == values
    case ConstN(value, _) => values == {value}
    case StringN(minLength, maxLength, pattern, _) =>
      forall s :: s in values <==> InLength(minLength, maxLength, s) && (pattern.Some? ==> o.matches(pattern.value, s))
    case OneOfN(branches, _) => UnitsAre(docs, o, branches, values)
    case _ => false
  }

  /** A definition whose name an inline enum took is read as the enum. That is what its schema says never for
      objects, integers, booleans, lists and null; for an enum if both list the same values; for a constant if it
      is the one value; for a string if its bounds and pattern admit those values alone; and for a union if
      those are its unit tags and no payload can be read. */
  lemma DroppedDefinitionAgreesIff(docs: Docs, o: Outside, types: Types, n: string, values: seq<string>, node: Node)
    requires ScalarAliases(types) && n in types && types[n] == Enum(values) && n !in o.external && values != []
    requires !node.RefN? && (node.OneOfN? ==> LowerDecl(docs, false, node).Some?)
    ensures ReadsAlike(docs, o, types, n, node) <==> TakesJust(docs, o, node, ValueSet(values))
  {
    hide Accepts, Valid, Fits, ValueSet, LowerDecl, UnitsAre;
    forall v ensures Accepts(types, o, Ref(n), v) <==> v.Str? && v.s in ValueSet(values) {
      EnumTypeReads(types, o, n, values, v);
    }
    FirstIsListed(values);
    TakesJustStrings(docs, o, node, ValueSet(values), values[0]);
    if ReadsAlike(docs, o, types, n, node) {
      forall v
        ensures Valid(docs, Partial(o), false, node, v, {}) && Fits(v) <==> v.Str? && v.s in ValueSet(values)
      {
        assert Accepts(types, o, Ref(n), v) <==> Valid(docs, Partial(o), false, node, v, {}) && Fits(v);
      }
    }
    if TakesStrings(docs, o, node, ValueSet(values)) {
      forall v ensures Accepts(types, o, Ref(n), v) <==> Valid(docs, Partial(o), false, node, v, {}) && Fits(v) {
        assert Valid(docs, Partial(o), false, node, v, {}) && Fits(v) <==> v.Str? && v.s in ValueSet(values);
      }
    }
  }

  /** Just these strings are valid and fit. */
  ghost predicate TakesStrings(docs: Docs, o: Outside, node: Node, values: set<string>) {
    forall v :: Valid(docs, Partial(o), false, node, v, {}) && Fits(v) <==> v.Str? && v.s in values
  }

  lemma TakesJustStrings(docs: Docs, o: Outside, node: Node, values: set<string>, first: string)
    requires first in values && !node.RefN? && (node.OneOfN? ==> LowerDecl(docs, false, node).Some?)
    ensures TakesStrings(docs, o, node, values) <==> TakesJust(docs, o, node, values)
  {
    if node.OneOfN? {
      hide LowerDecl, TakesStrings, UnitsAre;
      UnionTakesIff(docs, o, node, values);
    } else if node.EnumN? || node.ConstN? || node.StringN? {
      StringsTakenIff(docs, o, node, values);
    } else {
      var v := if node.ObjectN? && !node.typed then Null else Str(first);
      assert Valid(docs, Partial(o), false, node, v, {}) && Fits(v) <==> !v.Str?;
    }
  }

  lemma StringsTakenIff(docs: Docs, o: Outside, node: Node, values: set<string>)
    requires node.EnumN? || node.ConstN? || node.StringN?
    ensures TakesStrings(docs, o, node, values) <==> TakesJust(docs, o, node, values)
  {
    if TakesStrings(docs, o, node, values) {
      forall s ensures s in values <==> Valid(docs, Partial(o), false, node, Str(s), {}) {
        assert Valid(docs, Partial(o), false, node, Str(s), {}) && Fits(Str(s)) <==> Str(s).Str? && s in values;
      }
    }
  }

  /** Distinct tags leave at most one branch to a value. */
  lemma UnionValid(docs: Docs, o: Outside, node: Node, v: Json)
    requires node.OneOfN? && LowerDecl(docs, false, node).Some?
    ensures Valid(docs, Partial(o), false, node, v, {}) <==>
            exists i | 0 <= i < |node.branches| :: Valid(docs, Partial(o), false, node.branches[i], v, {})
  {
    var branches, variants := node.branches, LowerBranches(docs, false, node.branches).value;
    assert DistinctTags(variants);
    hide Valid, LowerBranch, LowerDecl, HasTag;
    forall i | 0 <= i < |branches| && Valid(docs, Partial(o), false, branches[i], v, {})
      ensures HasTag(variants[i], v)
    {
      BranchAt(docs, false, branches, i);
      BranchShape(docs, o, false, branches[i], v, {});
    }
    forall i, j | 0 <= i < |branches| && 0 <= j < |branches| && i != j && HasTag(variants[i], v)
      ensures !HasTag(variants[j], v)
    {
      TagsExclude(variants[i], variants[j], v);
    }
    ValidOneOf(docs, Partial(o), false, node, v, {});
    var hits := seq(|branches|, i requires 0 <= i < |branches| => Valid(docs, Partial(o), false, branches[i], v, {}));
    assert Valid(docs, Partial(o), false, node, v, {}) <==> ExactlyOne(hits);
    forall i, j | 0 <= i < |hits| && 0 <= j < |hits| && i != j && hits[i] ensures !hits[j] {
      assert HasTag(variants[i], v);
    }
    if i :| 0 <= i < |branches| && Valid(docs, Partial(o), false, branches[i], v, {}) {
      assert hits[i];
    }
  }

  /** A branch takes its tag alone, or an object with a payload its schema takes. */
  lemma BranchTakes(docs: Docs, o: Outside, branches: seq<Node>, i: nat, v: Json)
    requires LowerBranches(docs, false, branches).Some? && i < |branches|
    ensures branches[i].ConstN? || (branches[i].ObjectN? && |branches[i].properties.Keys| == 1)
    ensures
      var variant := LowerBranches(docs, false, branches).value[i];
      && (branches[i].ConstN? ==>
            variant == Variant(branches[i].value, None) &&
            (Valid(docs, Partial(o), false, branches[i], v, {}) <==> v == Str(branches[i].value)))
      && (branches[i].ObjectN? ==>
            && branches[i].properties.Keys == {variant.tag} && variant.payload.Some?
            && (Valid(docs, Partial(o), false, branches[i], v, {}) <==>
                  && v.Obj? && v.fields.Keys == {variant.tag}
                  && Valid(docs, Partial(o), false, branches[i].properties[variant.tag], v.fields[variant.tag], {})))
  {
    BranchAt(docs, false, branches, i);
    BranchShape(docs, o, false, branches[i], v, {});
    hide Valid, LowerExpr;
  }

  lemma UnionTakesIff(docs: Docs, o: Outside, node: Node, values: set<string>)
    requires node.OneOfN? && LowerDecl(docs, false, node).Some?
    ensures TakesStrings(docs, o, node, values) <==> UnitsAre(docs, o, node.branches, values)
  {
    if TakesStrings(docs, o, node, values) {
      hide Valid, LowerDecl, LowerBranch;
      forall s ensures s in values <==> Variant(s, None) in LowerBranches(docs, false, node.branches).value {
        assert Valid(docs, Partial(o), false, node, Str(s), {}) && Fits(Str(s)) <==> s in values;
        UnitTaken(docs, o, node, s);
      }
      forall b, k | b in node.branches && b.ObjectN? && k in b.properties ensures Unreadable(docs, o, b.properties[k]) {
        forall w ensures !(Valid(docs, Partial(o), false, b.properties[k], w, {}) && Fits(w)) {
          PayloadTaken(docs, o, node, b, k, w);
          var v := Obj(map[k := w]);
          assert Valid(docs, Partial(o), false, node, v, {}) && Fits(v) ==> v.Str?;
        }
      }
    }
    if UnitsAre(docs, o, node.branches, values) {
      hide Valid, LowerDecl, LowerBranch;
      forall v ensures Valid(docs, Partial(o), false, node, v, {}) && Fits(v) <==> v.Str? && v.s in values {
        UnitsTake(docs, o, node, values, v);
      }
    }
  }

  /** A bare string is valid exactly as a unit tag. */
  lemma UnitTaken(docs: Docs, o: Outside, node: Node, s: string)
    requires node.OneOfN? && LowerDecl(docs, false, node).Some?
    ensures Valid(docs, Partial(o), false, node, Str(s), {}) <==>
            Variant(s, None) in LowerBranches(docs, false, node.branches).value
  {
    var branches, variants := node.branches, LowerBranches(docs, false, node.branches).value;
    UnionValid(docs, o, node, Str(s));
    hide Valid, LowerDecl, LowerBranch, LowerBranches;
    forall i | 0 <= i < |branches|
      ensures Valid(docs, Partial(o), false, branches[i], Str(s), {}) <==> variants[i] == Variant(s, None)
    {
      BranchTakes(docs, o, branches, i, Str(s));
    }
  }

  /** A payload's value makes one of the union. */
  lemma PayloadTaken(docs: Docs, o: Outside, node: Node, b: Node, k: string, w: Json)
    requires node.OneOfN? && LowerDecl(docs, false, node).Some?
    requires b in node.branches && b.ObjectN? && k in b.properties
    ensures
      var v := Obj(map[k := w]);
      && (Valid(docs, Partial(o), false, b.properties[k], w, {}) ==> Valid(docs, Partial(o), false, node, v, {}))
      && (Fits(w) ==> Fits(v))
  {
    var i :| 0 <= i < |node.branches| && node.branches[i] == b;
    var v := Obj(map[k := w]);
    UnionValid(docs, o, node, v);
    assert v.fields.Keys == {k} && v.fields[k] == w;
    hide Valid, LowerDecl, LowerBranch, LowerBranches;
    BranchTakes(docs, o, node.branches, i, v);
  }

  lemma UnitsTake(docs: Docs, o: Outside, node: Node, values: set<string>, v: Json)
    requires node.OneOfN? && LowerDecl(docs, false, node).Some? && UnitsAre(docs, o, node.branches, values)
    ensures Valid(docs, Partial(o), false, node, v, {}) && Fits(v) <==> v.Str? && v.s in values
  {
    var branches := node.branches;
    UnionValid(docs, o, node, v);
    if v.Str? {
      UnitTaken(docs, o, node, v.s);
    } else {
      FitsInside(v);
      hide Valid, LowerDecl, LowerBranch, LowerBranches, Fits;
      forall i | 0 <= i < |branches| && Valid(docs, Partial(o), false, branches[i], v, {}) ensures !Fits(v) {
        BranchTakes(docs, o, branches, i, v);
        var b := branches[i];
        assert b in branches && b.ObjectN?;
        assert forall k <- b.properties :: Unreadable(docs, o, b.properties[k]);
      }
    }
  }

  lemma FirstIsListed(values: seq<string>)
    requires values != []
    ensures values[0] in ValueSet(values)
  {
  }

  // ---------------------------------------------------------------- an alias in another scope

  /** A shared alias of null or one other shape. */
  predicate IsNullableAlias(docs: Docs, alias: string, inner: Node) {
    alias in docs.shared && alias !in docs.local && NullableInner(docs.shared[alias]) == Some(inner)
  }

  /** What that shape means at home. */
  ghost predicate Meant(docs: Docs, o: Outside, alias: string, inner: Node, v: Json) {
    Valid(docs, Partial(o), true, inner, v, {DefId(true, alias)})
  }

  /** What the builder takes it to mean, in the scope of a user of the alias. */
  ghost predicate Taken(docs: Docs, o: Outside, inner: Node, v: Json) {
    Valid(docs, Partial(o), false, inner, v, {})
  }

  /** The type the alias has for a local user: that of the shape in the user's scope, or none. */
  lemma AliasLowering(docs: Docs, alias: string, inner: Node)
    requires IsNullableAlias(docs, alias, inner)
    ensures
      var ty := LowerExpr(docs, false, inner, {DefId(true, alias)});
      LowerExpr(docs, false, RefN(true, alias, {}), {}) == if ty.None? then None else Some(NullableT(ty.value))
  {
    var d: DefId := DefId(true, alias);
    assert {} + {d} == {d};
    assert Lookup(docs, false, RefN(true, alias, {})) == Some(d) && DefOf(docs, d) == docs.shared[alias];
    assert LowerExpr(docs, false, RefN(true, alias, {}), {}) == LowerExpr(docs, false, docs.shared[alias], {d});
    assert !docs.shared[alias].RefN?;
    var ty := LowerExpr(docs, false, inner, {d});
    assert LowerExpr(docs, false, docs.shared[alias], {d}) == if ty.None? then None else Some(NullableT(ty.value));
  }

  lemma AliasMeaning(docs: Docs, o: Outside, alias: string, inner: Node, v: Json)
    requires IsNullableAlias(docs, alias, inner)
    ensures Valid(docs, Partial(o), false, RefN(true, alias, {}), v, {}) <==>
            if v.Null? then !Meant(docs, o, alias, inner, v) else Meant(docs, o, alias, inner, v)
  {
    var d: DefId := DefId(true, alias);
    assert {} + {d} == {d};
    hide Valid;
    ValidRef(docs, Partial(o), false, RefN(true, alias, {}), v, {});
    NullableValid(docs, Partial(o), true, docs.shared[alias], v, {d});
  }

  /** A shared nullable alias, whatever shape it wraps, has for a local user the type that shape has in the user's
      scope. It is read as its schema exactly when both scopes mean the same by the shape: the same values, and
      never null at home. */
  lemma AliasReadIff(docs: Docs, o: Outside, types: Types, alias: string, inner: Node, e: TypeExpr)
    requires IsNullableAlias(docs, alias, inner) && ScalarAliases(types)
    requires LowerExpr(docs, false, inner, {DefId(true, alias)}) == Some(e)
    requires forall v :: Accepts(types, o, e, v) <==> Taken(docs, o, inner, v) && Fits(v)
    ensures LowerExpr(docs, false, RefN(true, alias, {}), {}) == Some(NullableT(e))
    ensures
      (forall v :: Accepts(types, o, NullableT(e), v) <==>
                   Valid(docs, Partial(o), false, RefN(true, alias, {}), v, {}) && Fits(v))
      <==>
      (forall v :: Fits(v) ==>
         if v.Null? then !Meant(docs, o, alias, inner, v)
         else Taken(docs, o, inner, v) <==> Meant(docs, o, alias, inner, v))
  {
    AliasLowering(docs, alias, inner);
    forall v
      ensures Accepts(types, o, NullableT(e), v) <==> v.Null? || (Taken(docs, o, inner, v) && Fits(v))
      ensures Valid(docs, Partial(o), false, RefN(true, alias, {}), v, {}) <==>
              if v.Null? then !Meant(docs, o, alias, inner, v) else Meant(docs, o, alias, inner, v)
      ensures v.Null? ==> Fits(v)
    {
      AliasMeaning(docs, o, alias, inner, v);
    }
    hide Accepts, Valid, Meant, Taken, Fits, LowerExpr;
  }

  /** A key that is a string here and a boolean there: the alias takes a string its schema forbids, and turns
      down a boolean its schema takes. */
  lemma KeyInBothDocuments(docs: Docs, o: Outside, types: Types, alias: string, key: string, s: string, b: bool)
    requires IsNullableAlias(docs, alias, RefN(false, key, {})) && ScalarAliases(types) && o.external == {}
    requires key in docs.local && docs.local[key] == StringN(None, None, None, {})
    requires key in docs.shared && docs.shared[key] == BooleanN({}) && key != alias
    requires key in types && types[key] == Alias(StringT(None, None, None))
    ensures LowerExpr(docs, false, RefN(true, alias, {}), {}) == Some(NullableT(Ref(key)))
    ensures Accepts(types, o, NullableT(Ref(key)), Str(s))
    ensures !Valid(docs, Partial(o), false, RefN(true, alias, {}), Str(s), {})
    ensures !Accepts(types, o, NullableT(Ref(key)), Bool(b))
    ensures Valid(docs, Partial(o), false, RefN(true, alias, {}), Bool(b), {})
  {
    var d: DefId, k: DefId := DefId(true, alias), DefId(true, key);
    var node := RefN(false, key, {});
    StringKeyReads(types, o, key, s, b);
    assert LowerExpr(docs, false, node, {d}) == Some(Ref(key)) by {
      assert Lookup(docs, false, node) == Some(DefId(false, key));
    }
    hide Accepts, LowerExpr;
    AliasLowering(docs, alias, node);
    AliasMeaning(docs, o, alias, node, Str(s));
    AliasMeaning(docs, o, alias, node, Bool(b));
    assert k in AllDefs(docs) && DefOf(docs, k) == BooleanN({}) && k !in {d};
    ValidRef(docs, Partial(o), true, node, Str(s), {d});
    ValidRef(docs, Partial(o), true, node, Bool(b), {d});
  }

  lemma StringKeyReads(types: Types, o: Outside, key: string, s: string, b: bool)
    requires ScalarAliases(types) && o.external == {} && key in types && types[key] == Alias(StringT(None, None, None))
    ensures Accepts(types, o, NullableT(Ref(key)), Str(s)) && !Accepts(types, o, NullableT(Ref(key)), Bool(b))
  {
    AcceptsRef(types, o, key, Str(s));
    AcceptsRef(types, o, key, Bool(b));
    assert !Accepts(types, o, StringT(None, None, None), Bool(b));
    assert Accepts(types, o, StringT(None, None, None), Str(s));
    assert !Accepts(types, o, Ref(key), Bool(b)) && Accepts(types, o, Ref(key), Str(s));
  }
}
