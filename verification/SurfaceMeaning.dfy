/** Lowering preserves meaning: a lowered model reads a value the way its JSON Schema does. */
module SurfaceMeaning {
  import opened Common
  import opened Documents
  import opened WireModel
  import opened SurfaceSchema

  // ---------------------------------------------------------------- sides of the comparison

  /** Every number is one the model can carry: integers up to 2^64-1, and no integer spelled with a
      fraction. */
  predicate Fits(v: Json) {
    match v
    case Int(n) => n <= U64_MAX
    case Float(r) => r != r.Floor as real
    case Arr(items) => forall i | 0 <= i < |items| :: Fits(items[i])
    case Obj(fields) => forall k | k in fields :: Fits(fields[k])
    case _ => true
  }

  /** An odd number of nullables, one inside the other. */
  predicate OddlyNullable(e: TypeExpr) {
    e.NullableT? && !OddlyNullable(e.inner)
  }

  /** Not an even number of nullables, one inside the other. */
  predicate Odd(e: TypeExpr) {
    e.NullableT? ==> OddlyNullable(e)
  }

  /** No even nest of nullables anywhere below. */
  predicate OddInside(e: TypeExpr) {
    match e
    case ListT(element) => Odd(element) && OddInside(element)
    case NullableT(inner) => OddInside(inner)
    case _ => true
  }

  predicate OddNests(e: TypeExpr) {
    Odd(e) && OddInside(e)
  }

  ghost predicate OddTypes(types: Types) {
    forall n <- types :: forall e <- Exprs(types[n]) :: OddNests(e)
  }

  /** Every inline enum of this name lists these values. */
  predicate EnumsAgree(enums: map<string, seq<string>>, node: Node) {
    match node
    case EnumN(typeName, values, _) => typeName.Some? ==> typeName.value in enums && enums[typeName.value] == values
    case OneOfN(branches, _) => forall i | 0 <= i < |branches| :: EnumsAgree(enums, branches[i])
    case ArrayN(items, _) => items.Some? ==> EnumsAgree(enums, items.value)
    case ObjectN(properties, _, _, _, _) => forall k | k in properties :: EnumsAgree(enums, properties[k])
    case _ => true
  }

  /** No local reference in a node has a name the surface schema defines. */
  predicate RefsApart(docs: Docs, node: Node) {
    match node
    case RefN(toShared, name, _) => toShared || name !in docs.local
    case OneOfN(branches, _) => forall i | 0 <= i < |branches| :: RefsApart(docs, branches[i])
    case ArrayN(items, _) => items.Some? ==> RefsApart(docs, items.value)
    case ObjectN(properties, _, _, _, _) => forall k | k in properties :: RefsApart(docs, properties[k])
    case _ => true
  }

  /** No name in use means two things: not a definition and an inline enum, not two inline enums with
      different values, and no shared nullable alias refers to a name of its user's. */
  ghost predicate Clean(docs: Docs, enums: map<string, seq<string>>) {
    && enums.Keys !! docs.local.Keys + docs.shared.Keys
    && forall d | Live(docs, d) ::
         && (DefOf(docs, d).EnumN? || EnumsAgree(enums, DefOf(docs, d)))
         && (d.inShared && NullableInner(DefOf(docs, d)).Some? ==> RefsApart(docs, DefOf(docs, d)))
  }

  /** Each modelled type is the lowering of the definition or inline enum it is named after. */
  ghost predicate Faithful(docs: Docs, enums: map<string, seq<string>>, types: Types) {
    && ScalarAliases(types)
    && forall n <- types ::
         && DeclRefs(types[n]) <= types.Keys
         && (n in docs.local ==> LowerDecl(docs, false, docs.local[n]) == Some(types[n]))
         && (n in docs.shared && n !in docs.local ==> LowerDecl(docs, true, docs.shared[n]) == Some(types[n]))
         && (n in enums ==> types[n] == Enum(enums[n]))
  }

  ghost predicate NullableAliases(docs: Docs, seen: set<DefId>) {
    forall d <- seen :: d in AllDefs(docs) && NullableInner(DefOf(docs, d)).Some?
  }

  // ---------------------------------------------------------------- scopes

  /** A shared nullable alias followed from a local declaration lowers as it would at home. */
  lemma {:induction false} SameAtHome(docs: Docs, enums: map<string, seq<string>>, node: Node, seen: set<DefId>)
    requires Clean(docs, enums) && RefsApart(docs, node) && LowerExpr(docs, false, node, seen).Some?
    ensures LowerExpr(docs, true, node, seen) == LowerExpr(docs, false, node, seen)
    decreases AllDefs(docs) - seen, node
  {
    if node.RefN? {
      assert node.toShared;
      var d := Lookup(docs, false, node).value;
      assert Lookup(docs, true, node) == Some(d) && Live(docs, d);
      if NullableInner(DefOf(docs, d)).Some? {
        SameAtHome(docs, enums, DefOf(docs, d), seen + {d});
      }
    } else if NullableInner(node).Some? {
      SameAtHome(docs, enums, NullableInner(node).value, seen);
    } else if node.ArrayN? && node.items.value != BYTE_NODE {
      SameAtHome(docs, enums, node.items.value, seen);
    }
  }

  /** Following a nullable alias ends at the same type its own document gives it. */
  lemma AliasHome(docs: Docs, enums: map<string, seq<string>>, inShared: bool, node: Node, low: set<DefId>)
    requires Clean(docs, enums) && node.RefN? && NullableAliases(docs, low)
    requires LowerExpr(docs, inShared, node, low).Some?
    ensures Lookup(docs, inShared, node).Some?
    ensures
      var d := Lookup(docs, inShared, node).value;
      NullableInner(DefOf(docs, d)).Some? ==>
        && d !in low && EnumsAgree(enums, DefOf(docs, d)) && NullableAliases(docs, low + {d})
        && LowerExpr(docs, d.inShared, DefOf(docs, d), low + {d}) == LowerExpr(docs, inShared, node, low)
  {
    var d := Lookup(docs, inShared, node).value;
    if NullableInner(DefOf(docs, d)).Some? && d.inShared && !inShared {
      SameAtHome(docs, enums, DefOf(docs, d), low + {d});
    }
  }

  // ---------------------------------------------------------------- union branches

  predicate ReadsVariant(types: Types, o: Outside, variant: Variant, v: Json)
    requires ScalarAliases(types)
  {
    if variant.payload.None? then v == Str(variant.tag)
    else
      v.Obj? && v.fields.Keys == {variant.tag} && Accepts(types, o, variant.payload.value, v.fields[variant.tag])
  }

  /** With distinct tags, first match and any match are the same. */
  lemma {:induction false} AnyVariant(types: Types, o: Outside, variants: seq<Variant>, v: Json)
    requires ScalarAliases(types) && DistinctTags(variants)
    ensures AcceptsUnion(types, o, variants, v) <==>
            exists i | 0 <= i < |variants| :: ReadsVariant(types, o, variants[i], v)
  {
    hide Accepts;
    if variants != [] {
      var first, rest := variants[0], variants[1..];
      AnyVariant(types, o, rest, v);
      assert forall i | 0 <= i < |rest| :: rest[i] == variants[i + 1];
      assert forall i | 1 <= i < |variants| :: variants[i] == rest[i - 1] && variants[i].tag != first.tag;
      if first.payload.Some? && v.Obj? && v.fields.Keys == {first.tag} {
        assert first.tag in v.fields.Keys;
        assert forall i | 1 <= i < |variants| :: !ReadsVariant(types, o, variants[i], v);
      }
    }
  }

  lemma {:induction false} BranchAt(docs: Docs, inShared: bool, branches: seq<Node>, i: nat)
    requires LowerBranches(docs, inShared, branches).Some? && i < |branches|
    ensures LowerBranch(docs, inShared, branches[i]) == Some(LowerBranches(docs, inShared, branches).value[i])
  {
    if i < |branches| - 1 {
      BranchAt(docs, inShared, branches[..|branches| - 1], i);
    }
  }

  /** The shape a branch demands: its tag alone, or one key, the tag. */
  predicate HasTag(variant: Variant, v: Json) {
    if variant.payload.None? then v == Str(variant.tag) else v.Obj? && v.fields.Keys == {variant.tag}
  }

  lemma BranchShape(docs: Docs, o: Outside, inShared: bool, branch: Node, v: Json, seen: set<DefId>)
    requires LowerBranch(docs, inShared, branch).Some?
    ensures
      var variant := LowerBranch(docs, inShared, branch).value;
      Valid(docs, Partial(o), inShared, branch, v, seen) <==>
        HasTag(variant, v) &&
        (branch.ObjectN? ==>
           && variant.tag in branch.properties && variant.payload.Some?
           && LowerExpr(docs, inShared, branch.properties[variant.tag], {}) == variant.payload
           && Valid(docs, Partial(o), inShared, branch.properties[variant.tag], v.fields[variant.tag], {}))
  {
    hide LowerExpr;
    if branch.ObjectN? {
      var tag := OnlyKey(branch.properties);
      assert v.Obj? && branch.required <= v.fields.Keys <= branch.properties.Keys <==> v.Obj? && v.fields.Keys == {tag};
    }
  }

  lemma TagsExclude(a: Variant, b: Variant, v: Json)
    requires a.tag != b.tag && HasTag(a, v)
    ensures !HasTag(b, v)
  {
    assert v.Obj? && a.payload.Some? ==> a.tag in v.fields.Keys;
  }

  // ---------------------------------------------------------------- the two readings agree

  /** What both directions need of a comparison: clean documents, a faithful model, no externals. */
  ghost predicate Setting(docs: Docs, o: Outside, enums: map<string, seq<string>>, types: Types) {
    Clean(docs, enums) && Faithful(docs, enums, types) && o.external == {}
  }

  /** The model's reading implies validity where nullables are flat; validity implies the model's reading
      where numbers fit. */
  predicate Agrees(accepts: bool, valid: bool, flat: bool, fits: bool) {
    (accepts && flat ==> valid) && (valid && fits ==> accepts)
  }

  lemma RefIsDef(docs: Docs, o: Outside, enums: map<string, seq<string>>, types: Types, inShared: bool, node: Node)
    requires Setting(docs, o, enums, types) && node.RefN? && Lookup(docs, inShared, node).Some?
    requires node.name in types
    ensures
      var d := Lookup(docs, inShared, node).value;
      d.name == node.name && LowerDecl(docs, d.inShared, DefOf(docs, d)) == Some(types[node.name])
  {
  }

  /** `oneOf` wants exactly one branch, so null is valid only under an odd number of nullables, while the
      model takes it under any. */
  lemma {:induction false} NullParity(docs: Docs, o: Outside, enums: map<string, seq<string>>, types: Types,
                                      inShared: bool, node: Node, low: set<DefId>, seen: set<DefId>, e: TypeExpr)
    requires Setting(docs, o, enums, types) && EnumsAgree(enums, node) && seen <= low && NullableAliases(docs, low)
    requires LowerExpr(docs, inShared, node, low) == Some(e) && Refs(e) <= types.Keys
    ensures Valid(docs, Partial(o), inShared, node, Null, seen) <==> OddlyNullable(e)
    ensures e.NullableT? ==> Accepts(types, o, e, Null)
    decreases AllDefs(docs) - low, node
  {
    NullableTakesNull(types, o, e);
    if e.NullableT? {
      NullableSource(docs, inShared, node, low);
    }
    assert Clean(docs, enums) && ScalarAliases(types);
    hide Accepts, Valid, Setting, Faithful, EnumsAgree, Clean, NullableAliases, LowerExpr, AllDefs, NullableInner,
         ScalarAliases;
    if !e.NullableT? {
      NullIsInvalid(docs, o, enums, types, inShared, node, low, seen);
    } else if node.RefN? {
      ValidRef(docs, Partial(o), inShared, node, Null, seen);
      AliasHome(docs, enums, inShared, node, low);
      var d := Lookup(docs, inShared, node).value;
      NullParity(docs, o, enums, types, d.inShared, DefOf(docs, d), low + {d}, seen + {d}, e);
    } else {
      InnerEnums(enums, node);
      NullParity(docs, o, enums, types, inShared, NullableInner(node).value, low, seen, e.inner);
      NullableValid(docs, Partial(o), inShared, node, Null, seen);
    }
  }

  /** A nullable type comes from a nullable node, or from a reference to one. */
  lemma NullableSource(docs: Docs, inShared: bool, node: Node, low: set<DefId>)
    requires LowerExpr(docs, inShared, node, low).Some? && LowerExpr(docs, inShared, node, low).value.NullableT?
    ensures node.RefN? ==> Lookup(docs, inShared, node).Some? &&
                           NullableInner(DefOf(docs, Lookup(docs, inShared, node).value)).Some?
    ensures !node.RefN? ==> NullableInner(node).Some?
    ensures !node.RefN? ==>
              LowerExpr(docs, inShared, NullableInner(node).value, low) ==
              Some(LowerExpr(docs, inShared, node, low).value.inner)
  {
  }

  lemma NullableTakesNull(types: Types, o: Outside, e: TypeExpr)
    requires ScalarAliases(types)
    ensures e.NullableT? ==> Accepts(types, o, e, Null)
  {
  }

  lemma InnerEnums(enums: map<string, seq<string>>, node: Node)
    requires NullableInner(node).Some? && EnumsAgree(enums, node)
    ensures EnumsAgree(enums, NullableInner(node).value)
  {
  }

  lemma ValidRef(docs: Docs, r: Reader, inShared: bool, node: Node, v: Json, seen: set<DefId>)
    requires node.RefN?
    ensures
      var d := Denoted(inShared, node);
      Valid(docs, r, inShared, node, v, seen) <==>
        && BoundsHold(r, node.extra, v)
        && d in AllDefs(docs) && d !in seen && Valid(docs, r, d.inShared, DefOf(docs, d), v, seen + {d})
  {
  }

  ghost function NoDefs(): set<DefId> { {} }

  lemma {:induction false} ExprAgrees(docs: Docs, o: Outside, enums: map<string, seq<string>>, types: Types,
                                      inShared: bool, node: Node, low: set<DefId>, seen: set<DefId>, v: Json)
    requires Setting(docs, o, enums, types) && EnumsAgree(enums, node)
    requires seen <= low && NullableAliases(docs, low)
    requires LowerExpr(docs, inShared, node, low).Some?
    requires Refs(LowerExpr(docs, inShared, node, low).value) <= types.Keys
    ensures
      var e := LowerExpr(docs, inShared, node, low).value;
      Agrees(Accepts(types, o, e, v), Valid(docs, Partial(o), inShared, node, v, seen),
             (v.Null? ==> Odd(e)) && OddInside(e) && OddTypes(types), Fits(v))
    decreases v, AllDefs(docs) - low, node, 1
  {
    if node.RefN? {
      var d := Lookup(docs, inShared, node).value;
      if NullableInner(DefOf(docs, d)).Some? {
        AliasHome(docs, enums, inShared, node, low);
        ExprAgrees(docs, o, enums, types, d.inShared, DefOf(docs, d), low + {d}, seen + {d}, v);
      } else {
        RefIsDef(docs, o, enums, types, inShared, node);
        assert d !in low && d in AllDefs(docs) - low;
        DeclAgrees(docs, o, enums, types, d.inShared, DefOf(docs, d), d.name, v, seen + {d});
      }
    } else if NullableInner(node).Some? {
      NullableAgrees(docs, o, enums, types, inShared, node, low, seen, v);
    } else if node.ArrayN? {
      ArrayAgrees(docs, o, enums, types, inShared, node, low, seen, v);
    } else {
      assert node.EnumN? ==> node.typeName.value in types;
    }
  }

  lemma {:induction false} NullableAgrees(docs: Docs, o: Outside, enums: map<string, seq<string>>, types: Types,
                                          inShared: bool, node: Node, low: set<DefId>, seen: set<DefId>, v: Json)
    requires Setting(docs, o, enums, types) && EnumsAgree(enums, node) && NullableInner(node).Some?
    requires seen <= low && NullableAliases(docs, low)
    requires LowerExpr(docs, inShared, node, low).Some?
    requires Refs(LowerExpr(docs, inShared, node, low).value) <= types.Keys
    ensures
      var e := LowerExpr(docs, inShared, node, low).value;
      Agrees(Accepts(types, o, e, v), Valid(docs, Partial(o), inShared, node, v, seen),
             (v.Null? ==> Odd(e)) && OddInside(e) && OddTypes(types), Fits(v))
    decreases v, AllDefs(docs) - low, node, 0
  {
    var inner := NullableInner(node).value;
    var e := LowerExpr(docs, inShared, inner, low).value;
    assert LowerExpr(docs, inShared, node, low) == Some(NullableT(e));
    if v.Null? {
      NullParity(docs, o, enums, types, inShared, node, low, seen, NullableT(e));
    } else {
      InnerEnums(enums, node);
      ExprAgrees(docs, o, enums, types, inShared, inner, low, seen, v);
      NullableValid(docs, Partial(o), inShared, node, v, seen);
    }
  }

  lemma ValidOneOf(docs: Docs, r: Reader, inShared: bool, node: Node, v: Json, seen: set<DefId>)
    requires node.OneOfN?
    ensures Valid(docs, r, inShared, node, v, seen) <==>
            BoundsHold(r, node.extra, v) && ExactlyOne(seq(|node.branches|, i requires 0 <= i < |node.branches| =>
              Valid(docs, r, inShared, node.branches[i], v, seen)))
  {
  }

  lemma ValidNull(docs: Docs, r: Reader, inShared: bool, v: Json, seen: set<DefId>)
    ensures Valid(docs, r, inShared, NULL_NODE, v, seen) <==> v.Null?
  {
  }

  /** `oneOf` of null and another shape: exactly one of the two. */
  lemma NullableValid(docs: Docs, r: Reader, inShared: bool, node: Node, v: Json, seen: set<DefId>)
    requires NullableInner(node).Some?
    ensures Valid(docs, r, inShared, node, v, seen) <==>
            BoundsHold(r, node.extra, v) && (v.Null? <==> !Valid(docs, r, inShared, NullableInner(node).value, v, seen))
  {
    hide Valid;
    ValidOneOf(docs, r, inShared, node, v, seen);
    ValidNull(docs, r, inShared, v, seen);
    var hits := seq(2, i requires 0 <= i < 2 => Valid(docs, r, inShared, node.branches[i], v, seen));
    assert ExactlyOne(hits) <==> hits[0] != hits[1];
  }

  /** What lowers to something not nullable never accepts null. */
  lemma NullIsInvalid(docs: Docs, o: Outside, enums: map<string, seq<string>>, types: Types, inShared: bool, node: Node,
                      low: set<DefId>, seen: set<DefId>)
    requires Setting(docs, o, enums, types) && seen <= low && NullableAliases(docs, low)
    requires LowerExpr(docs, inShared, node, low).Some? && !LowerExpr(docs, inShared, node, low).value.NullableT?
    requires Refs(LowerExpr(docs, inShared, node, low).value) <= types.Keys
    ensures !Valid(docs, Partial(o), inShared, node, Null, seen)
    decreases AllDefs(docs) - low
  {
    if node.RefN? {
      var d := Lookup(docs, inShared, node).value;
      if NullableInner(DefOf(docs, d)).None? {
        RefIsDef(docs, o, enums, types, inShared, node);
        var def := DefOf(docs, d);
        if def.OneOfN? {
          forall i | 0 <= i < |def.branches|
            ensures !Valid(docs, Partial(o), d.inShared, def.branches[i], Null, seen + {d})
          {
            BranchAt(docs, d.inShared, def.branches, i);
            BranchShape(docs, o, d.inShared, def.branches[i], Null, seen + {d});
          }
        }
      }
    }
  }

  lemma {:induction false} ArrayAgrees(docs: Docs, o: Outside, enums: map<string, seq<string>>, types: Types,
                                       inShared: bool, node: Node, low: set<DefId>, seen: set<DefId>, v: Json)
    requires Setting(docs, o, enums, types) && EnumsAgree(enums, node) && node.ArrayN?
    requires NullableAliases(docs, low)
    requires LowerExpr(docs, inShared, node, low).Some?
    requires Refs(LowerExpr(docs, inShared, node, low).value) <= types.Keys
    ensures
      var e := LowerExpr(docs, inShared, node, low).value;
      Agrees(Accepts(types, o, e, v), Valid(docs, Partial(o), inShared, node, v, seen),
             (v.Null? ==> Odd(e)) && OddInside(e) && OddTypes(types), Fits(v))
    decreases v, AllDefs(docs) - low, node, 0
  {
    if v.Arr? {
      var items := node.items.value;
      if items == BYTE_NODE {
        assert forall i | 0 <= i < |v.items| ::
          IsByte(v.items[i]) ==> Valid(docs, Partial(o), inShared, items, v.items[i], {});
        assert forall i | 0 <= i < |v.items| ::
          Valid(docs, Partial(o), inShared, items, v.items[i], {}) && Fits(v.items[i]) ==> IsByte(v.items[i]);
      } else {
        var element := LowerExpr(docs, inShared, items, low).value;
        forall i | 0 <= i < |v.items|
          ensures Agrees(Accepts(types, o, element, v.items[i]),
                         Valid(docs, Partial(o), inShared, items, v.items[i], {}),
                         OddNests(element) && OddTypes(types), Fits(v.items[i]))
        {
          ExprAgrees(docs, o, enums, types, inShared, items, low, {}, v.items[i]);
        }
      }
    }
  }

  lemma AcceptsRef(types: Types, o: Outside, n: string, v: Json)
    requires ScalarAliases(types) && n in types && n !in o.external && !types[n].Envelope?
    ensures types[n].Alias? ==> Accepts(types, o, Ref(n), v) == Accepts(types, o, types[n].target, v)
    ensures types[n].Enum? ==> Accepts(types, o, Ref(n), v) == (v.Str? && v.s in types[n].values)
    ensures types[n].Record? ==> Accepts(types, o, Ref(n), v) == AcceptsRecord(types, o, types[n].fields, v)
    ensures types[n].Union? ==> Accepts(types, o, Ref(n), v) == AcceptsUnion(types, o, types[n].variants, v)
  {
  }

  lemma SettingAt(docs: Docs, o: Outside, enums: map<string, seq<string>>, types: Types, n: string)
    requires Setting(docs, o, enums, types) && n in types
    ensures ScalarAliases(types) && o.external == {} && DeclRefs(types[n]) <= types.Keys
    ensures OddTypes(types) ==> forall e <- Exprs(types[n]) :: OddNests(e)
  {
  }

  lemma AliasAgrees(docs: Docs, o: Outside, types: Types, inShared: bool, node: Node, v: Json, seen: set<DefId>)
    requires ScalarAliases(types) && IsAlias(node) && LowerExpr(docs, inShared, node, {}).Some?
    ensures
      var e := LowerExpr(docs, inShared, node, {}).value;
      Agrees(Accepts(types, o, e, v), Valid(docs, Partial(o), inShared, node, v, seen), true, Fits(v))
  {
  }

  lemma {:induction false} DeclAgrees(docs: Docs, o: Outside, enums: map<string, seq<string>>, types: Types,
                                      inShared: bool, node: Node, n: string, v: Json, seen: set<DefId>)
    requires Setting(docs, o, enums, types) && (node.EnumN? || EnumsAgree(enums, node))
    requires n in types && LowerDecl(docs, inShared, node) == Some(types[n])
    ensures Agrees(Accepts(types, o, Ref(n), v), Valid(docs, Partial(o), inShared, node, v, seen),
                   OddTypes(types), Fits(v))
    decreases v, NoDefs(), 3
  {
    SettingAt(docs, o, enums, types, n);
    hide Accepts, AcceptsRecord, AcceptsUnion, Setting, EnumsAgree, OddTypes, Fits, LowerExpr, LowerRecord, DeclRefs;
    AcceptsRef(types, o, n, v);
    if node.ObjectN? {
      RecordAgrees(docs, o, enums, types, inShared, node, types[n], v, seen);
    } else if node.OneOfN? {
      UnionAgrees(docs, o, enums, types, inShared, node, types[n], v, seen);
    } else if !node.EnumN? {
      AliasAgrees(docs, o, types, inShared, node, v, seen);
    }
  }

  lemma ValidObject(docs: Docs, r: Reader, inShared: bool, node: Node, v: Json, seen: set<DefId>)
    requires node.ObjectN? && node.typed
    ensures Valid(docs, r, inShared, node, v, seen) <==>
            && BoundsHold(r, node.extra, v) && v.Obj? && node.required <= v.fields.Keys
            && (node.closed ==> v.fields.Keys <= node.properties.Keys)
            && forall k | k in v.fields && k in node.properties ::
                 Valid(docs, r, inShared, node.properties[k], v.fields[k], {})
  {
  }

  lemma FitsInside(v: Json)
    ensures v.Obj? && Fits(v) ==> forall k | k in v.fields :: Fits(v.fields[k])
  {
  }

  lemma EnumsInside(enums: map<string, seq<string>>, node: Node)
    requires node.ObjectN? && EnumsAgree(enums, node)
    ensures forall k <- node.properties :: EnumsAgree(enums, node.properties[k])
  {
  }

  lemma RecordShape(docs: Docs, inShared: bool, node: Node, decl: Decl)
    requires node.ObjectN? && LowerRecord(docs, inShared, node) == Some(decl)
    ensures decl.Record? && node.closed && RequiredKeys(decl.fields) == node.required
    ensures decl.fields.Keys == node.properties.Keys
    ensures forall k <- decl.fields ::
              && LowerExpr(docs, inShared, node.properties[k], {}) == Some(decl.fields[k].ty)
              && decl.fields[k].ty in Exprs(decl) && Refs(decl.fields[k].ty) <= DeclRefs(decl)
  {
    hide LowerExpr;
    forall k <- decl.fields ensures Refs(decl.fields[k].ty) <= DeclRefs(decl) {
      assert decl.fields[k].ty in Exprs(decl);
    }
  }

  lemma {:induction false} RecordAgrees(docs: Docs, o: Outside, enums: map<string, seq<string>>, types: Types,
                                        inShared: bool, node: Node, decl: Decl, v: Json, seen: set<DefId>)
    requires Setting(docs, o, enums, types) && node.ObjectN? && node.typed && EnumsAgree(enums, node)
    requires LowerRecord(docs, inShared, node) == Some(decl) && DeclRefs(decl) <= types.Keys
    ensures Agrees(AcceptsRecord(types, o, decl.fields, v), Valid(docs, Partial(o), inShared, node, v, seen),
                   (forall e <- Exprs(decl) :: OddNests(e)) && OddTypes(types), Fits(v))
    decreases v, NoDefs(), 2
  {
    assert ScalarAliases(types);
    hide Setting;
    EnumsInside(enums, node);
    assert NullableAliases(docs, {});
    hide Valid, Accepts, OddTypes, Fits, OddNests, LowerExpr, LowerRecord, EnumsAgree, Exprs, DeclRefs, RequiredKeys;
    RecordShape(docs, inShared, node, decl);
    ValidObject(docs, Partial(o), inShared, node, v, seen);
    FitsInside(v);
    if v.Obj? {
      var fields := decl.fields;
      forall k | k in v.fields && k in fields
        ensures Agrees(Accepts(types, o, fields[k].ty, v.fields[k]),
                       Valid(docs, Partial(o), inShared, node.properties[k], v.fields[k], {}),
                       OddNests(fields[k].ty) && OddTypes(types), Fits(v.fields[k]))
      {
        ExprAgrees(docs, o, enums, types, inShared, node.properties[k], {}, {}, v.fields[k]);
      }
    }
  }

  predicate OddVariant(variant: Variant) {
    variant.payload.Some? ==> OddNests(variant.payload.value)
  }

  lemma {:induction false} VariantAgrees(docs: Docs, o: Outside, enums: map<string, seq<string>>, types: Types,
                                         inShared: bool, branch: Node, variant: Variant, v: Json, seen: set<DefId>)
    requires Setting(docs, o, enums, types) && EnumsAgree(enums, branch)
    requires LowerBranch(docs, inShared, branch) == Some(variant) && VariantRefs(variant) <= types.Keys
    ensures Valid(docs, Partial(o), inShared, branch, v, seen) ==> HasTag(variant, v)
    ensures Agrees(ReadsVariant(types, o, variant, v), Valid(docs, Partial(o), inShared, branch, v, seen),
                   OddVariant(variant) && OddTypes(types), Fits(v))
    decreases v, NoDefs(), 1
  {
    FitsInside(v);
    BranchShape(docs, o, inShared, branch, v, seen);
    assert ScalarAliases(types);
    assert branch.ObjectN? ==> forall k <- branch.properties :: EnumsAgree(enums, branch.properties[k]);
    hide Accepts, Valid, LowerBranch, LowerExpr, Setting, EnumsAgree, Fits, OddTypes, OddNests;
    if branch.ObjectN? && HasTag(variant, v) {
      ExprAgrees(docs, o, enums, types, inShared, branch.properties[variant.tag], {}, {}, v.fields[variant.tag]);
    }
  }

  /** At most one branch can have the tag, so `oneOf` and first match ask the same. */
  lemma OneTagDecides(types: Types, o: Outside, variants: seq<Variant>, v: Json, hits: seq<bool>, flat: bool,
                      fits: bool)
    requires ScalarAliases(types) && DistinctTags(variants) && |hits| == |variants|
    requires forall i | 0 <= i < |hits| :: hits[i] ==> HasTag(variants[i], v)
    requires forall i | 0 <= i < |hits| :: Agrees(ReadsVariant(types, o, variants[i], v), hits[i], flat, fits)
    ensures Agrees(AcceptsUnion(types, o, variants, v), ExactlyOne(hits), flat, fits)
  {
    hide Accepts, AcceptsUnion, ReadsVariant, HasTag;
    AnyVariant(types, o, variants, v);
    if AcceptsUnion(types, o, variants, v) && flat {
      var i :| 0 <= i < |variants| && ReadsVariant(types, o, variants[i], v);
      forall j | 0 <= j < |hits| && j != i ensures !hits[j] {
        TagsExclude(variants[i], variants[j], v);
      }
    }
    if ExactlyOne(hits) && fits {
      var i :| 0 <= i < |hits| && hits[i];
      assert ReadsVariant(types, o, variants[i], v);
    }
  }

  lemma VariantRange(decl: Decl, variant: Variant)
    requires decl.Union? && variant in decl.variants
    ensures VariantRefs(variant) <= DeclRefs(decl)
    ensures (forall e <- Exprs(decl) :: OddNests(e)) ==> OddVariant(variant)
  {
    assert variant.payload.Some? ==> variant.payload.value in Exprs(decl);
  }

  lemma {:induction false} UnionAgrees(docs: Docs, o: Outside, enums: map<string, seq<string>>, types: Types,
                                       inShared: bool, node: Node, decl: Decl, v: Json, seen: set<DefId>)
    requires Setting(docs, o, enums, types) && node.OneOfN? && EnumsAgree(enums, node)
    requires LowerDecl(docs, inShared, node) == Some(decl) && DeclRefs(decl) <= types.Keys
    ensures Agrees(AcceptsUnion(types, o, decl.variants, v), Valid(docs, Partial(o), inShared, node, v, seen),
                   (forall e <- Exprs(decl) :: OddNests(e)) && OddTypes(types), Fits(v))
    decreases v, NoDefs(), 2
  {
    assert ScalarAliases(types) && DistinctTags(decl.variants);
    assert LowerBranches(docs, inShared, node.branches) == Some(decl.variants);
    assert forall b <- node.branches :: EnumsAgree(enums, b);
    hide Accepts, AcceptsUnion, Valid, LowerDecl, LowerBranch, Exprs, OddTypes, OddNests, Fits, Setting, EnumsAgree,
         HasTag, ReadsVariant, ExactlyOne, DistinctTags, DeclRefs, VariantRefs, OddVariant;
    ValidOneOf(docs, Partial(o), inShared, node, v, seen);
    var hits := seq(|node.branches|, i requires 0 <= i < |node.branches| =>
      Valid(docs, Partial(o), inShared, node.branches[i], v, seen));
    var flat := (forall e <- Exprs(decl) :: OddNests(e)) && OddTypes(types);
    forall i | 0 <= i < |hits|
      ensures hits[i] ==> HasTag(decl.variants[i], v)
      ensures Agrees(ReadsVariant(types, o, decl.variants[i], v), hits[i], flat, Fits(v))
    {
      BranchAt(docs, inShared, node.branches, i);
      VariantRange(decl, decl.variants[i]);
      VariantAgrees(docs, o, enums, types, inShared, node.branches[i], decl.variants[i], v, seen);
    }
    OneTagDecides(types, o, decl.variants, v, hits, flat, Fits(v));
  }
}
