/** Keywords that narrow a schema and that lowering does not look at: the model reads the schema without
    them, so it agrees with the whole schema exactly where none of them is effective. */
module SurfaceKeywords {
  import opened Common
  import opened Documents
  import opened WireModel
  import opened SurfaceSchema
  import opened SurfaceMeaning

  /** Every such keyword met on the way through a value holds there: at the node itself, where a reference
      leads, in the branch that is read, in every item and member. */
  ghost predicate Kept(docs: Docs, r: Reader, inShared: bool, node: Node, v: Json, seen: set<DefId>)
    decreases v, AllDefs(docs) - seen, node
  {
    BoundsHold(r, node.extra, v) &&
    match node
    case RefN(_, _, _) =>
      var d := Denoted(inShared, node);
      d in AllDefs(docs) && d !in seen ==> Kept(docs, r, d.inShared, DefOf(docs, d), v, seen + {d})
    case OneOfN(branches, _) =>
      forall i | 0 <= i < |branches| ::
        Valid(docs, Partial(r.o), inShared, branches[i], v, seen) ==> Kept(docs, r, inShared, branches[i], v, seen)
    case ArrayN(items, _) =>
      v.Arr? && items.Some? ==> forall i | 0 <= i < |v.items| :: Kept(docs, r, inShared, items.value, v.items[i], {})
    case ObjectN(properties, _, _, _, _) =>
      v.Obj? ==>
        forall k | k in v.fields && k in properties :: Kept(docs, r, inShared, properties[k], v.fields[k], {})
    case _ => true
  }

  /** A reader that minds no such keyword finds them all kept. */
  lemma {:induction false} PartialIsKept(docs: Docs, o: Outside, inShared: bool, node: Node, v: Json, seen: set<DefId>)
    ensures Kept(docs, Partial(o), inShared, node, v, seen)
    decreases v, AllDefs(docs) - seen, node
  {
    hide Valid;
    match node {
      case RefN(_, _, _) =>
        var d := Denoted(inShared, node);
        if d in AllDefs(docs) && d !in seen {
          PartialIsKept(docs, o, d.inShared, DefOf(docs, d), v, seen + {d});
        }
      case OneOfN(branches, _) =>
        forall i | 0 <= i < |branches| ensures Kept(docs, Partial(o), inShared, branches[i], v, seen) {
          PartialIsKept(docs, o, inShared, branches[i], v, seen);
        }
      case ArrayN(items, _) =>
        if v.Arr? && items.Some? {
          forall i | 0 <= i < |v.items| ensures Kept(docs, Partial(o), inShared, items.value, v.items[i], {}) {
            PartialIsKept(docs, o, inShared, items.value, v.items[i], {});
          }
        }
      case ObjectN(properties, _, _, _, _) =>
        if v.Obj? {
          forall k | k in v.fields && k in properties
            ensures Kept(docs, Partial(o), inShared, properties[k], v.fields[k], {})
          {
            PartialIsKept(docs, o, inShared, properties[k], v.fields[k], {});
          }
        }
      case _ =>
    }
  }

  /** The whole schema takes what it takes without such keywords, less what they forbid. */
  ghost predicate Narrows(docs: Docs, r: Reader, inShared: bool, node: Node, v: Json, seen: set<DefId>) {
    Valid(docs, r, inShared, node, v, seen) <==>
      Valid(docs, Partial(r.o), inShared, node, v, seen) && Kept(docs, r, inShared, node, v, seen)
  }

  // ---------------------------------------------------------------- one node from its parts

  lemma ScalarNarrows(docs: Docs, r: Reader, inShared: bool, node: Node, v: Json, seen: set<DefId>)
    requires node.StringN? || node.EnumN? || node.ConstN? || node.IntegerN? || node.BooleanN? || node.NullN?
    ensures Narrows(docs, r, inShared, node, v, seen)
  {
  }

  lemma ReferenceNarrows(docs: Docs, r: Reader, inShared: bool, node: Node, v: Json, seen: set<DefId>)
    requires node.RefN?
    requires
      var d := Denoted(inShared, node);
      d in AllDefs(docs) && d !in seen ==> Narrows(docs, r, d.inShared, DefOf(docs, d), v, seen + {d})
    ensures Narrows(docs, r, inShared, node, v, seen)
  {
  }

  lemma ArrayNarrows(docs: Docs, r: Reader, inShared: bool, node: Node, v: Json, seen: set<DefId>)
    requires node.ArrayN? && node.items.Some?
    requires v.Arr? ==> forall i | 0 <= i < |v.items| :: Narrows(docs, r, inShared, node.items.value, v.items[i], {})
    ensures Narrows(docs, r, inShared, node, v, seen)
  {
  }

  lemma ObjectNarrows(docs: Docs, r: Reader, inShared: bool, node: Node, v: Json, seen: set<DefId>)
    requires node.ObjectN?
    requires v.Obj? ==>
               forall k | k in v.fields && k in node.properties ::
                 Narrows(docs, r, inShared, node.properties[k], v.fields[k], {})
    ensures Narrows(docs, r, inShared, node, v, seen)
  {
  }

  lemma ExactlyOneNarrows(whole: seq<bool>, part: seq<bool>, kept: seq<bool>)
    requires |whole| == |part| == |kept| && forall i | 0 <= i < |whole| :: whole[i] <==> part[i] && kept[i]
    requires forall i, j | 0 <= i < |part| && 0 <= j < |part| && i != j :: !(part[i] && part[j])
    ensures ExactlyOne(whole) <==> ExactlyOne(part) && forall i | 0 <= i < |part| :: part[i] ==> kept[i]
  {
    if ExactlyOne(whole) {
      var i :| 0 <= i < |whole| && whole[i];
      assert part[i] && forall j | 0 <= j < |part| && j != i :: !part[j];
    }
    if ExactlyOne(part) && forall i | 0 <= i < |part| :: part[i] ==> kept[i] {
      var i :| 0 <= i < |part| && part[i];
      assert whole[i] && forall j | 0 <= j < |whole| && j != i :: !whole[j];
    }
  }

  /** A `oneOf` narrows with its branches as long as no two of them can take the value. */
  lemma OneOfNarrows(docs: Docs, r: Reader, inShared: bool, node: Node, v: Json, seen: set<DefId>)
    requires node.OneOfN?
    requires forall i | 0 <= i < |node.branches| :: Narrows(docs, r, inShared, node.branches[i], v, seen)
    requires forall i, j | 0 <= i < |node.branches| && 0 <= j < |node.branches| && i != j ::
               !(Valid(docs, Partial(r.o), inShared, node.branches[i], v, seen) &&
                 Valid(docs, Partial(r.o), inShared, node.branches[j], v, seen))
    ensures Narrows(docs, r, inShared, node, v, seen)
  {
    hide Valid, Kept, ExactlyOne;
    var b := node.branches;
    KeptOneOf(docs, r, inShared, node, v, seen);
    ValidOneOf(docs, r, inShared, node, v, seen);
    ValidOneOf(docs, Partial(r.o), inShared, node, v, seen);
    var whole := seq(|b|, i requires 0 <= i < |b| => Valid(docs, r, inShared, b[i], v, seen));
    var part := seq(|b|, i requires 0 <= i < |b| => Valid(docs, Partial(r.o), inShared, b[i], v, seen));
    var kept := seq(|b|, i requires 0 <= i < |b| => Kept(docs, r, inShared, b[i], v, seen));
    assert forall i | 0 <= i < |b| :: Narrows(docs, r, inShared, b[i], v, seen) ==> (whole[i] <==> part[i] && kept[i]);
    hide BoundsHold;
    ExactlyOneNarrows(whole, part, kept);
    assert BoundsHold(Partial(r.o), node.extra, v) by {
      PartialHolds(r.o, node.extra, v);
    }
  }

  lemma PartialHolds(o: Outside, extra: set<Bound>, v: Json)
    ensures BoundsHold(Partial(o), extra, v)
  {
  }

  lemma KeptOneOf(docs: Docs, r: Reader, inShared: bool, node: Node, v: Json, seen: set<DefId>)
    requires node.OneOfN?
    ensures Kept(docs, r, inShared, node, v, seen) <==>
            BoundsHold(r, node.extra, v) &&
            forall i | 0 <= i < |node.branches| ::
              Valid(docs, Partial(r.o), inShared, node.branches[i], v, seen) ==>
                Kept(docs, r, inShared, node.branches[i], v, seen)
  {
  }

  // ---------------------------------------------------------------- everything lowering takes

  /** No nullable directly inside a nullable. */
  predicate Flat(e: TypeExpr) {
    match e
    case ListT(element) => Flat(element)
    case NullableT(inner) => !inner.NullableT? && Flat(inner)
    case _ => true
  }

  ghost predicate FlatTypes(types: Types) {
    forall n <- types :: forall e <- Exprs(types[n]) :: Flat(e)
  }

  predicate FlatVariant(variant: Variant) {
    variant.payload.Some? ==> Flat(variant.payload.value)
  }

  lemma FlatAt(types: Types, n: string)
    requires FlatTypes(types) && n in types
    ensures forall e <- Exprs(types[n]) :: Flat(e)
  {
  }

  lemma FlatBranch(decl: Decl, variant: Variant)
    requires decl.Union? && variant in decl.variants && forall e <- Exprs(decl) :: Flat(e)
    ensures FlatVariant(variant)
  {
    assert variant.payload.Some? ==> variant.payload.value in Exprs(decl);
  }

  lemma {:induction false} FlatIsOdd(e: TypeExpr)
    requires Flat(e)
    ensures OddNests(e)
  {
    match e {
      case ListT(element) => FlatIsOdd(element);
      case NullableT(inner) => FlatIsOdd(inner);
      case _ =>
    }
  }

  lemma FlatTypesAreOdd(types: Types)
    requires FlatTypes(types)
    ensures OddTypes(types)
  {
    hide Flat, OddNests;
    forall n, e | n in types && e in Exprs(types[n]) ensures OddNests(e) {
      FlatIsOdd(e);
    }
  }

  lemma {:induction false} ExprNarrows(docs: Docs, r: Reader, enums: map<string, seq<string>>, types: Types,
                                       inShared: bool, node: Node, low: set<DefId>, seen: set<DefId>, v: Json,
                                       e: TypeExpr)
    requires Setting(docs, r.o, enums, types) && FlatTypes(types) && EnumsAgree(enums, node)
    requires seen <= low && NullableAliases(docs, low)
    requires LowerExpr(docs, inShared, node, low) == Some(e) && Flat(e) && Refs(e) <= types.Keys
    ensures Narrows(docs, r, inShared, node, v, seen)
    decreases v, AllDefs(docs) - low, node, 1
  {
    hide Narrows, Valid, Kept, Fits, FlatTypes, Faithful;
    if node.RefN? {
      var d := Lookup(docs, inShared, node).value;
      if NullableInner(DefOf(docs, d)).Some? {
        AliasHome(docs, enums, inShared, node, low);
        ExprNarrows(docs, r, enums, types, d.inShared, DefOf(docs, d), low + {d}, seen + {d}, v, e);
      } else {
        RefIsDef(docs, r.o, enums, types, inShared, node);
        assert d !in low && d in AllDefs(docs) - low;
        DeclNarrows(docs, r, enums, types, d.inShared, DefOf(docs, d), d.name, v, seen + {d});
      }
      ReferenceNarrows(docs, r, inShared, node, v, seen);
    } else if NullableInner(node).Some? {
      NullableNarrows(docs, r, enums, types, inShared, node, low, seen, v, e);
    } else if node.ArrayN? {
      ItemsNarrow(docs, r, enums, types, inShared, node, low, v, e);
      ArrayNarrows(docs, r, inShared, node, v, seen);
    } else {
      ScalarNarrows(docs, r, inShared, node, v, seen);
    }
  }

  lemma {:induction false} NullableNarrows(docs: Docs, r: Reader, enums: map<string, seq<string>>, types: Types,
                                           inShared: bool, node: Node, low: set<DefId>, seen: set<DefId>, v: Json,
                                           e: TypeExpr)
    requires Setting(docs, r.o, enums, types) && FlatTypes(types) && EnumsAgree(enums, node)
    requires NullableInner(node).Some?
    requires seen <= low && NullableAliases(docs, low)
    requires LowerExpr(docs, inShared, node, low) == Some(e) && Flat(e) && Refs(e) <= types.Keys
    ensures Narrows(docs, r, inShared, node, v, seen)
    decreases v, AllDefs(docs) - low, node, 0
  {
    var inner := NullableInner(node).value;
    assert LowerExpr(docs, inShared, inner, low) == Some(e.inner) && !e.inner.NullableT?;
    assert EnumsAgree(enums, inner);
    hide Narrows, Valid, Kept, Fits, FlatTypes, LowerExpr, Faithful, Clean, EnumsAgree, NullableAliases;
    ExprNarrows(docs, r, enums, types, inShared, inner, low, seen, v, e.inner);
    ScalarNarrows(docs, r, inShared, NULL_NODE, v, seen);
    ValidNull(docs, Partial(r.o), inShared, v, seen);
    if v.Null? {
      NullIsInvalid(docs, r.o, enums, types, inShared, inner, low, seen);
    }
    OneOfNarrows(docs, r, inShared, node, v, seen);
  }

  lemma {:induction false} ItemsNarrow(docs: Docs, r: Reader, enums: map<string, seq<string>>, types: Types,
                                       inShared: bool, node: Node, low: set<DefId>, v: Json, e: TypeExpr)
    requires Setting(docs, r.o, enums, types) && FlatTypes(types) && EnumsAgree(enums, node) && node.ArrayN?
    requires NullableAliases(docs, low)
    requires LowerExpr(docs, inShared, node, low) == Some(e) && Flat(e) && Refs(e) <= types.Keys
    ensures node.items.Some?
    ensures v.Arr? ==> forall i | 0 <= i < |v.items| :: Narrows(docs, r, inShared, node.items.value, v.items[i], {})
    decreases v, AllDefs(docs) - low, node, 0
  {
    hide Narrows, Valid, Kept, Fits, FlatTypes, Faithful;
    var items := node.items.value;
    if v.Arr? {
      forall i | 0 <= i < |v.items| ensures Narrows(docs, r, inShared, items, v.items[i], {}) {
        if items == BYTE_NODE {
          ScalarNarrows(docs, r, inShared, items, v.items[i], {});
        } else {
          ExprNarrows(docs, r, enums, types, inShared, items, low, {}, v.items[i], e.element);
        }
      }
    }
  }

  lemma {:induction false} DeclNarrows(docs: Docs, r: Reader, enums: map<string, seq<string>>, types: Types,
                                       inShared: bool, node: Node, n: string, v: Json, seen: set<DefId>)
    requires Setting(docs, r.o, enums, types) && FlatTypes(types) && (node.EnumN? || EnumsAgree(enums, node))
    requires n in types && LowerDecl(docs, inShared, node) == Some(types[n])
    ensures Narrows(docs, r, inShared, node, v, seen)
    decreases v, NoDefs(), 3
  {
    SettingAt(docs, r.o, enums, types, n);
    FlatAt(types, n);
    hide Narrows, Setting, EnumsAgree, FlatTypes, LowerExpr, LowerRecord, DeclRefs;
    if node.ObjectN? {
      MembersNarrow(docs, r, enums, types, inShared, node, types[n], v);
      ObjectNarrows(docs, r, inShared, node, v, seen);
    } else if node.OneOfN? {
      BranchesNarrow(docs, r, enums, types, inShared, node, types[n], v, seen);
      OneOfNarrows(docs, r, inShared, node, v, seen);
    } else {
      ScalarNarrows(docs, r, inShared, node, v, seen);
    }
  }

  lemma {:induction false} MembersNarrow(docs: Docs, r: Reader, enums: map<string, seq<string>>, types: Types,
                                         inShared: bool, node: Node, decl: Decl, v: Json)
    requires Setting(docs, r.o, enums, types) && FlatTypes(types) && node.ObjectN? && EnumsAgree(enums, node)
    requires LowerRecord(docs, inShared, node) == Some(decl) && DeclRefs(decl) <= types.Keys
    requires forall e <- Exprs(decl) :: Flat(e)
    ensures v.Obj? ==>
              forall k | k in v.fields && k in node.properties ::
                Narrows(docs, r, inShared, node.properties[k], v.fields[k], {})
    decreases v, NoDefs(), 2
  {
    hide Setting, Narrows;
    EnumsInside(enums, node);
    assert NullableAliases(docs, {});
    hide FlatTypes, Flat, LowerExpr, LowerRecord, EnumsAgree, Exprs, DeclRefs;
    RecordShape(docs, inShared, node, decl);
    if v.Obj? {
      forall k | k in v.fields && k in node.properties
        ensures Narrows(docs, r, inShared, node.properties[k], v.fields[k], {})
      {
        ExprNarrows(docs, r, enums, types, inShared, node.properties[k], {}, {}, v.fields[k], decl.fields[k].ty);
      }
    }
  }

  lemma {:induction false} BranchNarrows(docs: Docs, r: Reader, enums: map<string, seq<string>>, types: Types,
                                         inShared: bool, branch: Node, variant: Variant, v: Json, seen: set<DefId>)
    requires Setting(docs, r.o, enums, types) && FlatTypes(types) && EnumsAgree(enums, branch)
    requires LowerBranch(docs, inShared, branch) == Some(variant) && VariantRefs(variant) <= types.Keys
    requires FlatVariant(variant)
    ensures Narrows(docs, r, inShared, branch, v, seen)
    decreases v, NoDefs(), 1
  {
    assert NullableAliases(docs, {});
    if branch.ObjectN? {
      EnumsInside(enums, branch);
      hide Narrows, FlatTypes, Setting, EnumsAgree, LowerExpr, Flat;
      assert LowerExpr(docs, inShared, branch.properties[variant.tag], {}) == variant.payload;
      if v.Obj? {
        forall k | k in v.fields && k in branch.properties
          ensures Narrows(docs, r, inShared, branch.properties[k], v.fields[k], {})
        {
          ExprNarrows(docs, r, enums, types, inShared, branch.properties[k], {}, {}, v.fields[k],
                      variant.payload.value);
        }
      }
      ObjectNarrows(docs, r, inShared, branch, v, seen);
    } else {
      ScalarNarrows(docs, r, inShared, branch, v, seen);
    }
  }

  lemma {:induction false} BranchesNarrow(docs: Docs, r: Reader, enums: map<string, seq<string>>, types: Types,
                                          inShared: bool, node: Node, decl: Decl, v: Json, seen: set<DefId>)
    requires Setting(docs, r.o, enums, types) && FlatTypes(types) && node.OneOfN? && EnumsAgree(enums, node)
    requires LowerDecl(docs, inShared, node) == Some(decl) && DeclRefs(decl) <= types.Keys
    requires forall e <- Exprs(decl) :: Flat(e)
    ensures forall i | 0 <= i < |node.branches| :: Narrows(docs, r, inShared, node.branches[i], v, seen)
    ensures forall i, j | 0 <= i < |node.branches| && 0 <= j < |node.branches| && i != j ::
              !(Valid(docs, Partial(r.o), inShared, node.branches[i], v, seen) &&
                Valid(docs, Partial(r.o), inShared, node.branches[j], v, seen))
    decreases v, NoDefs(), 2
  {
    var variants := decl.variants;
    assert DistinctTags(variants) && LowerBranches(docs, inShared, node.branches) == Some(variants);
    assert forall b <- node.branches :: EnumsAgree(enums, b);
    hide Narrows, Valid, LowerDecl, LowerBranch, Exprs, FlatTypes, Flat, Setting, EnumsAgree, HasTag, DeclRefs,
         VariantRefs, FlatVariant;
    forall i | 0 <= i < |node.branches|
      ensures Narrows(docs, r, inShared, node.branches[i], v, seen)
      ensures Valid(docs, Partial(r.o), inShared, node.branches[i], v, seen) ==> HasTag(variants[i], v)
    {
      BranchAt(docs, inShared, node.branches, i);
      BranchShape(docs, r.o, inShared, node.branches[i], v, seen);
      VariantRange(decl, variants[i]);
      FlatBranch(decl, variants[i]);
      BranchNarrows(docs, r, enums, types, inShared, node.branches[i], variants[i], v, seen);
    }
    forall i, j | 0 <= i < |variants| && 0 <= j < |variants| && i != j && HasTag(variants[i], v)
      ensures !HasTag(variants[j], v)
    {
      TagsExclude(variants[i], variants[j], v);
    }
  }

  // ---------------------------------------------------------------- where nothing is dropped

  predicate Silent(node: Node) {
    node.extra == {} &&
    match node
    case OneOfN(branches, _) => forall i | 0 <= i < |branches| :: Silent(branches[i])
    case ArrayN(items, _) => items.Some? ==> Silent(items.value)
    case ObjectN(properties, _, _, _, _) => forall k | k in properties :: Silent(properties[k])
    case _ => true
  }

  /** Documents written without such keywords drop nothing. */
  lemma {:induction false} SilentIsKept(docs: Docs, r: Reader, inShared: bool, node: Node, v: Json, seen: set<DefId>)
    requires Silent(node) && SilentDocs(docs)
    ensures Kept(docs, r, inShared, node, v, seen)
    decreases v, AllDefs(docs) - seen, node
  {
    hide Valid;
    match node {
      case RefN(_, _, _) =>
        var d := Denoted(inShared, node);
        if d in AllDefs(docs) && d !in seen {
          SilentIsKept(docs, r, d.inShared, DefOf(docs, d), v, seen + {d});
        }
      case OneOfN(branches, _) =>
        forall i | 0 <= i < |branches| ensures Kept(docs, r, inShared, branches[i], v, seen) {
          SilentIsKept(docs, r, inShared, branches[i], v, seen);
        }
      case ArrayN(items, _) =>
        if v.Arr? && items.Some? {
          forall i | 0 <= i < |v.items| ensures Kept(docs, r, inShared, items.value, v.items[i], {}) {
            SilentIsKept(docs, r, inShared, items.value, v.items[i], {});
          }
        }
      case ObjectN(properties, _, _, _, _) =>
        if v.Obj? {
          forall k | k in v.fields && k in properties ensures Kept(docs, r, inShared, properties[k], v.fields[k], {}) {
            SilentIsKept(docs, r, inShared, properties[k], v.fields[k], {});
          }
        }
      case _ =>
    }
  }

  ghost predicate SilentDocs(docs: Docs) {
    forall d <- AllDefs(docs) :: Silent(DefOf(docs, d))
  }

  /** There the whole schema is what the builder reads of it. */
  lemma {:induction false} SilentIsWhole(docs: Docs, r: Reader, inShared: bool, node: Node, v: Json, seen: set<DefId>)
    requires Silent(node) && SilentDocs(docs)
    ensures Valid(docs, r, inShared, node, v, seen) <==> Valid(docs, Partial(r.o), inShared, node, v, seen)
    decreases v, AllDefs(docs) - seen, node
  {
    match node {
      case RefN(_, _, _) =>
        var d := Denoted(inShared, node);
        if d in AllDefs(docs) && d !in seen {
          SilentIsWhole(docs, r, d.inShared, DefOf(docs, d), v, seen + {d});
        }
      case OneOfN(branches, _) =>
        forall i | 0 <= i < |branches|
          ensures Valid(docs, r, inShared, branches[i], v, seen) <==>
                  Valid(docs, Partial(r.o), inShared, branches[i], v, seen)
        {
          SilentIsWhole(docs, r, inShared, branches[i], v, seen);
        }
        SameBranches(docs, r, inShared, node, v, seen);
      case ArrayN(items, _) =>
        if v.Arr? && items.Some? {
          forall i | 0 <= i < |v.items|
            ensures Valid(docs, r, inShared, items.value, v.items[i], {}) <==>
                    Valid(docs, Partial(r.o), inShared, items.value, v.items[i], {})
          {
            SilentIsWhole(docs, r, inShared, items.value, v.items[i], {});
          }
        }
      case ObjectN(properties, _, _, _, _) =>
        if v.Obj? {
          forall k | k in v.fields && k in properties
            ensures Valid(docs, r, inShared, properties[k], v.fields[k], {}) <==>
                    Valid(docs, Partial(r.o), inShared, properties[k], v.fields[k], {})
          {
            SilentIsWhole(docs, r, inShared, properties[k], v.fields[k], {});
          }
        }
      case _ =>
    }
  }

  lemma SameBranches(docs: Docs, r: Reader, inShared: bool, node: Node, v: Json, seen: set<DefId>)
    requires node.OneOfN? && node.extra == {}
    requires forall i | 0 <= i < |node.branches| ::
               Valid(docs, r, inShared, node.branches[i], v, seen) <==>
               Valid(docs, Partial(r.o), inShared, node.branches[i], v, seen)
    ensures Valid(docs, r, inShared, node, v, seen) <==> Valid(docs, Partial(r.o), inShared, node, v, seen)
  {
    hide Valid;
    var b := node.branches;
    ValidOneOf(docs, r, inShared, node, v, seen);
    ValidOneOf(docs, Partial(r.o), inShared, node, v, seen);
    assert seq(|b|, i requires 0 <= i < |b| => Valid(docs, r, inShared, b[i], v, seen)) ==
           seq(|b|, i requires 0 <= i < |b| => Valid(docs, Partial(r.o), inShared, b[i], v, seen));
  }

  lemma SilentNarrows(docs: Docs, r: Reader, inShared: bool, node: Node, v: Json, seen: set<DefId>)
    requires Silent(node) && SilentDocs(docs)
    ensures Narrows(docs, r, inShared, node, v, seen)
  {
    hide Valid, Kept, Silent;
    SilentIsWhole(docs, r, inShared, node, v, seen);
    SilentIsKept(docs, r, inShared, node, v, seen);
  }

  /** Null means the same under every nullable: none stands inside another, or they nest oddly and no keyword
      is dropped on the way. */
  ghost predicate NullsAlike(docs: Docs, node: Node, types: Types) {
    FlatTypes(types) || (OddTypes(types) && Silent(node) && SilentDocs(docs))
  }

  lemma NullsAlikeOdd(docs: Docs, node: Node, types: Types)
    requires NullsAlike(docs, node, types)
    ensures OddTypes(types)
  {
    if FlatTypes(types) {
      FlatTypesAreOdd(types);
    }
  }

  /** A list that must not be empty lowers to a plain list, which may be. */
  lemma MinItemsIsDropped(docs: Docs, r: Reader, types: Types, n: int)
    requires r.Whole? && n > 0 && ScalarAliases(types)
    ensures
      var node, e := ArrayN(Some(BooleanN({})), {MinItems(n)}), ListT(BoolT);
      && LowerExpr(docs, false, node, {}) == Some(e)
      && Accepts(types, r.o, e, Arr([])) && Fits(Arr([]))
      && Valid(docs, Partial(r.o), false, node, Arr([]), {}) && !Valid(docs, r, false, node, Arr([]), {})
  {
    var node := ArrayN(Some(BooleanN({})), {MinItems(n)});
    assert MinItems(n) in node.extra && !BoundHolds(r, MinItems(n), Arr([]));
    assert LowerExpr(docs, false, BooleanN({}), {}) == Some(BoolT);
  }
}
