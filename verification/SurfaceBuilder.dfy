/** The builder that lowers a surface schema: definitions, an optional envelope root, and the shared
    definitions they reach. */
module SurfaceBuilder {
  import opened Common
  import opened WireModel
  import opened SurfaceSchema
  import opened SurfaceLowering
  import opened SurfaceOutcome
  import opened SurfaceOrder

  // ---------------------------------------------------------------- what the builder keeps

  /** Names that have a type, or will have one when all definitions and the queue are done. */
  function Known(docs: Docs, types: seq<Named>, queue: seq<string>): set<string> {
    (set n | n in docs.local && NullableInner(docs.local[n]).None?) + Names(types) + (set n | n in queue)
  }

  /** What a build keeps where names are apart: no name twice, and no reference that leads nowhere. */
  ghost predicate Tidy(docs: Docs, root: Root, types: seq<Named>, emitted: set<string>, queue: seq<string>) {
    && Distinct(types)
    && (forall t <- types :: t.name in emitted || (root.EnvelopeRoot? && t.name == root.name))
    && (forall n <- EnumNames(docs, root) :: n in emitted ==> n in Names(types))
    && (forall t <- types :: DeclRefs(t.decl) <= Known(docs, types, queue))
  }

  lemma TidyEmits(docs: Docs, root: Root, types: seq<Named>, emitted: set<string>, queue: seq<string>, n: string)
    requires Tidy(docs, root, types, emitted, queue) && n !in EnumNames(docs, root)
    ensures Tidy(docs, root, types, emitted + {n}, queue)
  {
  }

  lemma TidyQueues(docs: Docs, root: Root, types: seq<Named>, emitted: set<string>, queue: seq<string>, n: string)
    requires Tidy(docs, root, types, emitted, queue)
    ensures Tidy(docs, root, types, emitted, queue + [n])
    ensures Known(docs, types, queue) + {n} <= Known(docs, types, queue + [n])
  {
    assert n in queue + [n];
  }

  lemma TidyAppends(docs: Docs, root: Root, types: seq<Named>, emitted: set<string>, queue: seq<string>, t: Named)
    requires Tidy(docs, root, types, emitted, queue) && t.name !in Names(types)
    requires DeclRefs(t.decl) <= Known(docs, types, queue)
    ensures Names(types + [t]) == Names(types) + {t.name}
    ensures
      var known := emitted + if root.EnvelopeRoot? && t.name == root.name then {} else {t.name};
      Tidy(docs, root, types + [t], known, queue)
  {
    hide DeclRefs, EnumNames;
    assert forall u <- types + [t] :: u in types || u == t;
    assert t in types + [t] && forall u <- types :: u in types + [t] && u.name in Names(types);
    assert Known(docs, types, queue) <= Known(docs, types + [t], queue);
  }

  lemma {:induction false} DistinctFits(names: seq<string>, all: set<string>)
    requires forall i, j :: 0 <= i < j < |names| ==> names[i] != names[j]
    requires forall n <- names :: n in all
    ensures |names| <= |all|
  {
    if names != [] {
      var last := names[|names| - 1];
      DistinctFits(names[..|names| - 1], all - {last});
    }
  }

  /** From one state to a later one types and queue only grow, whatever is emitted gets a type, and what
      gets a type is an inline enum not emitted before. */
  ghost predicate Grows(docs: Docs, root: Root, types0: seq<Named>, emitted0: set<string>, queue0: seq<string>,
                        types1: seq<Named>, emitted1: set<string>, queue1: seq<string>) {
    && types0 <= types1 && queue0 <= queue1 && emitted0 <= emitted1 <= emitted0 + Names(types1)
    && Names(types0) <= Names(types1) && Known(docs, types0, queue0) <= Known(docs, types1, queue1)
    && forall n | n in Names(types1) && n !in Names(types0) :: n !in emitted0 && n in EnumNames(docs, root)
  }

  lemma GrowsOn(docs: Docs, root: Root, types0: seq<Named>, emitted0: set<string>, queue0: seq<string>,
                types1: seq<Named>, emitted1: set<string>, queue1: seq<string>,
                types2: seq<Named>, emitted2: set<string>, queue2: seq<string>)
    requires Grows(docs, root, types0, emitted0, queue0, types1, emitted1, queue1)
    requires Grows(docs, root, types1, emitted1, queue1, types2, emitted2, queue2)
    ensures Grows(docs, root, types0, emitted0, queue0, types2, emitted2, queue2)
    ensures Known(docs, types1, queue1) <= Known(docs, types2, queue2)
  {
    hide Names, Known, EnumNames;
  }

  /** From one state to a later one types and queue gain nothing but these names. */
  predicate Adds(types0: seq<Named>, queue0: seq<string>, types1: seq<Named>, queue1: seq<string>, names: set<string>) {
    Names(types1) <= Names(types0) + names && forall n <- queue1 :: n in queue0 || n in names
  }

  lemma AddsOn(types0: seq<Named>, queue0: seq<string>, types1: seq<Named>, queue1: seq<string>, some: set<string>,
               types2: seq<Named>, queue2: seq<string>, others: set<string>, all: set<string>)
    requires Adds(types0, queue0, types1, queue1, some) && Adds(types1, queue1, types2, queue2, others)
    requires some + others <= all
    ensures Adds(types0, queue0, types2, queue2, all)
  {
  }

  /** Beside the definition's own type nothing is gained but what its declaration names. */
  ghost predicate AddsFor(docs: Docs, d: DefId, types0: seq<Named>, queue0: seq<string>, types1: seq<Named>,
                          queue1: seq<string>) {
    && (forall n | n in Names(types1) && n !in Names(types0) :: n == d.name || Mentions(docs, d, n))
    && (forall n <- queue1 :: n in queue0 || Mentions(docs, d, n))
  }

  lemma AddsNothing(docs: Docs, d: DefId, types: seq<Named>, queue: seq<string>)
    ensures AddsFor(docs, d, types, queue, types, queue)
  {
    hide Mentions, Names;
  }

  lemma AddsForItself(docs: Docs, d: DefId, types0: seq<Named>, queue0: seq<string>, types1: seq<Named>,
                      queue1: seq<string>, decl: Decl, types2: seq<Named>)
    requires d in AllDefs(docs) && !Nullable(DefOf(docs, d))
    requires LowerDecl(docs, d.inShared, DefOf(docs, d)) == Some(decl)
    requires Adds(types0, queue0, types1, queue1, DeclRefs(decl)) && Names(types2) == Names(types1) + {d.name}
    ensures AddsFor(docs, d, types0, queue0, types2, queue1)
  {
    hide LowerDecl, Names, Nullable, DeclRefs;
  }

  /** What the declaration of a definition was made of is a block of types. */
  lemma MakesBlock(docs: Docs, root: Root, types0: seq<Named>, emitted0: set<string>, queue0: seq<string>,
                   types1: seq<Named>, emitted1: set<string>, queue1: seq<string>, types2: seq<Named>, t: Named)
    requires NamesApart(docs, root) && t.name !in EnumNames(docs, root)
    requires Grows(docs, root, types0, emitted0, queue0, types1, emitted1, queue1)
    requires Adds(types0, queue0, types1, queue1, DeclRefs(t.decl)) && types2 == types1 + [t] && Distinct(types2)
    requires forall u <- types1 :: EntryOk(docs, root, u)
    ensures Block(docs, root, types0, queue0, types2, queue1)
  {
    hide EnumNames, DeclRefs, Known, EntryOk, NamesApart;
    forall i | |types0| <= i < |types1|
      ensures types1[i].name in EnumNames(docs, root) && types1[i].name !in Names(types0)
      ensures NamedIn(types1[i].decl) == {} && types1[i].name in DeclRefs(t.decl)
    {
      var u := types1[i];
      assert u in types1 && u.name in Names(types1);
      forall v <- types0 ensures v.name != u.name {
        var j :| 0 <= j < |types0| && types0[j] == v;
        assert types2[j] == v && types2[i] == u;
      }
      EnumNamesNothing(docs, root, u);
    }
    assert forall i | 0 <= i < |types1| :: types2[i] == types1[i];
  }

  lemma DefinitionIsNoEnvelope(docs: Docs, root: Root, t: Named)
    requires NamesApart(docs, root) && EntryOk(docs, root, t) && (t.name in docs.local || OnlyShared(docs, t.name))
    ensures !t.decl.Envelope?
  {
    NamesakeModels(docs, root, t);
  }

  lemma RecordIsNoEnvelope(docs: Docs, root: Root, t: Named)
    requires NamesApart(docs, root) && EntryOk(docs, root, t) && root.EnvelopeRoot?
    requires !root.properties[0].1.RefN? && t.name == root.properties[0].0
    ensures !t.decl.Envelope?
  {
    NamesakeModels(docs, root, t);
    hide LowerExpr;
  }

  lemma EnumNamesNothing(docs: Docs, root: Root, t: Named)
    requires NamesApart(docs, root) && EntryOk(docs, root, t) && t.name in EnumNames(docs, root)
    ensures NamedIn(t.decl) == {}
  {
    hide AllEnums, LowerDecl, LowerRecord;
    assert t.decl.Enum?;
  }

  lemma JustifyMore(docs: Docs, root: Root, types0: seq<Named>, queue0: seq<string>, types1: seq<Named>,
                    queue1: seq<string>, names: set<string>)
    requires Justify(docs, root, types0, queue0) && Adds(types0, queue0, types1, queue1, names)
    requires forall n <- names :: RootMentions(docs, root, n)
    ensures Justify(docs, root, types1, queue1)
  {
    hide RootMentions, Reached, Mentions;
  }

  lemma NothingIsJustified(docs: Docs, root: Root)
    ensures Justify(docs, root, [], [])
  {
  }

  lemma JustifyOwn(docs: Docs, root: Root, types0: seq<Named>, queue: seq<string>, types1: seq<Named>, n: string)
    requires Justify(docs, root, types0, queue) && Names(types1) == Names(types0) + {n} && BearsType(docs, root, n)
    ensures Justify(docs, root, types1, queue)
  {
    hide BearsType, Wanted, Names;
  }

  lemma JustifyReached(docs: Docs, root: Root, d: DefId, types0: seq<Named>, queue0: seq<string>, types1: seq<Named>,
                       queue1: seq<string>)
    requires Justify(docs, root, types0, queue0) && AddsFor(docs, d, types0, queue0, types1, queue1)
    requires Reached(docs, root, d) && (d.name in Names(types1) ==> BearsType(docs, root, d.name))
    ensures Justify(docs, root, types1, queue1)
  {
    hide RootMentions, Reached, Mentions, Names;
    forall n | n in Names(types1) ensures BearsType(docs, root, n) {
      if n !in Names(types0) && n != d.name {
        assert Wanted(docs, root, n);
      }
    }
  }

  /** Some of a record's properties, lowered. */
  predicate FieldsLower(docs: Docs, inShared: bool, node: Node, fields: map<string, Field>)
    requires node.ObjectN?
  {
    forall k <- fields ::
      && IsSnake(k) && k in node.properties
      && LowerExpr(docs, inShared, node.properties[k], {}) == Some(fields[k].ty)
      && (k in node.required <==> !fields[k].optional)
  }

  lemma NothingLowered(docs: Docs, inShared: bool, node: Node)
    requires node.ObjectN?
    ensures FieldsLower(docs, inShared, node, map[]) && DeclRefs(Record(map[])) == {}
  {
  }

  lemma {:induction false} FieldAdded(docs: Docs, inShared: bool, node: Node, fields: map<string, Field>, k: string,
                                      ty: TypeExpr)
    requires node.ObjectN? && FieldsLower(docs, inShared, node, fields) && k in node.properties && IsSnake(k)
    requires LowerExpr(docs, inShared, node.properties[k], {}) == Some(ty) && k !in fields
    ensures
      var more := fields[k := Field(k !in node.required, ty)];
      FieldsLower(docs, inShared, node, more) && DeclRefs(Record(more)) == DeclRefs(Record(fields)) + Refs(ty)
  {
    hide LowerExpr;
    var more := fields[k := Field(k !in node.required, ty)];
    forall n | n in DeclRefs(Record(more)) ensures n in DeclRefs(Record(fields)) + Refs(ty) {
      var j :| j in more && n in Refs(more[j].ty);
      assert j != k ==> fields[j].ty in Exprs(Record(fields));
    }
    assert more[k].ty == ty && forall j <- fields :: j in more && more[j] == fields[j];
    assert forall j <- more :: more[j].ty in Exprs(Record(more));
  }

  lemma AllFieldsLower(docs: Docs, inShared: bool, node: Node, fields: map<string, Field>)
    requires node.ObjectN? && FieldsLower(docs, inShared, node, fields) && fields.Keys == node.properties.Keys
    requires node.closed && node.properties != map[] && node.required <= node.properties.Keys
    ensures LowerRecord(docs, inShared, node) == Some(Record(fields))
  {
    hide LowerExpr;
    assert fields == LowerRecord(docs, inShared, node).value.fields;
  }

  lemma FieldFails(docs: Docs, inShared: bool, node: Node, k: string)
    requires node.ObjectN? && k in node.properties
    requires !IsSnake(k) || LowerExpr(docs, inShared, node.properties[k], {}).None?
    ensures LowerRecord(docs, inShared, node).None?
  {
    hide LowerExpr;
  }

  lemma {:induction false} VariantAdded(variants: seq<Variant>, v: Variant)
    ensures DeclRefs(Union([])) == {}
    ensures DeclRefs(Union(variants + [v])) == DeclRefs(Union(variants)) + VariantRefs(v)
  {
    forall n | n in DeclRefs(Union(variants + [v])) ensures n in DeclRefs(Union(variants)) + VariantRefs(v) {
      var u :| u in variants + [v] && u.payload.Some? && n in Refs(u.payload.value);
      assert u != v ==> u in variants && u.payload.value in Exprs(Union(variants));
    }
    assert v in variants + [v] && forall u <- variants :: u in variants + [v];
    assert forall u <- variants + [v] | u.payload.Some? :: u.payload.value in Exprs(Union(variants + [v]));
  }

  /** How an envelope property is carried, and why that type will be there at the end. */
  ghost predicate WillCarry(docs: Docs, types: seq<Named>, queue: seq<string>, p: (string, Node), body: string) {
    && CarriedBy(docs, p, body)
    && (p.1.RefN? && Lookup(docs, false, p.1).value.inShared ==> body in queue)
    && (!p.1.RefN? ==> body in Names(types))
  }

  lemma CarriedOn(docs: Docs, types0: seq<Named>, queue0: seq<string>, types1: seq<Named>, queue1: seq<string>,
                  p: (string, Node), body: string)
    requires WillCarry(docs, types0, queue0, p, body) && Names(types0) <= Names(types1) && queue0 <= queue1
    ensures WillCarry(docs, types1, queue1, p, body)
  {
    hide CarriedBy;
    assert forall n <- queue0 :: n in queue1;
  }

  lemma UnionShape(docs: Docs, root: Root, inShared: bool, node: Node)
    requires node.OneOfN? && EnumsOf(node) <= AllEnums(docs, root)
    ensures forall i | 0 <= i < |node.branches| :: EnumsOf(node.branches[i]) <= AllEnums(docs, root)
    ensures LowerBranches(docs, inShared, node.branches[..0]) == Some([]) && DeclRefs(Union([])) == {}
    ensures LowerDecl(docs, inShared, node) == UnionOf(LowerBranches(docs, inShared, node.branches))
  {
    hide AllEnums, LowerBranch, UnionOf;
    assert forall i | 0 <= i < |node.branches| :: EnumsOf(node.branches[i]) <= EnumsOf(node);
  }

  lemma NextBranch(docs: Docs, inShared: bool, branches: seq<Node>, i: nat)
    requires i < |branches| && LowerBranches(docs, inShared, branches[..i]).Some?
    ensures
      var before := LowerBranches(docs, inShared, branches[..i]).value;
      var branch := LowerBranch(docs, inShared, branches[i]);
      LowerBranches(docs, inShared, branches[..i + 1]) == if branch.None? then None else Some(before + [branch.value])
  {
    hide LowerBranch;
    assert branches[..i + 1][..i] == branches[..i];
  }

  // ---------------------------------------------------------------- the builder

  /** One bad branch spoils every list it ends or stands in. */
  lemma {:induction false} BranchFails(docs: Docs, inShared: bool, branches: seq<Node>, n: nat)
    requires n <= |branches| && LowerBranches(docs, inShared, branches[..n]).None?
    ensures LowerBranches(docs, inShared, branches).None?
    decreases |branches|
  {
    if n < |branches| {
      var shorter := branches[..|branches| - 1];
      assert shorter[..n] == branches[..n];
      BranchFails(docs, inShared, shorter, n);
    } else {
      assert branches[..n] == branches;
    }
  }

  class Builder {
    const docs: Docs
    const root: Root
    /** The keys of the local definitions, in document order. */
    const order: seq<string>
    /** Whether local references are those of the shared document. */
    var inShared: bool
    var types: seq<Named>
    var emitted: set<string>
    var sharedQueue: seq<string>

    constructor (docs: Docs, root: Root, order: seq<string>)
      ensures this.docs == docs && this.root == root && this.order == order
      ensures Valid() && !inShared && types == [] && emitted == {} && sharedQueue == []
    {
      this.docs, this.root, this.order := docs, root, order;
      inShared, types, emitted, sharedQueue := false, [], {}, [];
    }

    ghost predicate Valid()
      reads this`types, this`emitted, this`sharedQueue
    {
      && (forall t <- types :: EntryOk(docs, root, t))
      && (forall n <- sharedQueue :: n in docs.shared && n !in docs.local && NullableInner(docs.shared[n]).None?)
      && (forall i, j :: 0 <= i < j < |sharedQueue| ==> sharedQueue[i] != sharedQueue[j])
      && (NamesApart(docs, root) ==> Tidy(docs, root, types, emitted, sharedQueue))
    }

    ghost function KnownNames(): set<string>
      reads this`types, this`sharedQueue
    {
      Known(docs, types, sharedQueue)
    }

    ghost predicate Grew(types0: seq<Named>, emitted0: set<string>, queue0: seq<string>)
      reads this`types, this`emitted, this`sharedQueue
    {
      Grows(docs, root, types0, emitted0, queue0, types, emitted, sharedQueue)
    }

    ghost predicate Gained(types0: seq<Named>, queue0: seq<string>, names: set<string>)
      reads this`types, this`sharedQueue
    {
      Adds(types0, queue0, types, sharedQueue, names)
    }

    ghost predicate EnumsListed() {
      forall x <- AllEnums(docs, root) :: x.1 != []
    }

    method TypeExpr(node: Node, seen: set<DefId>) returns (r: Option<TypeExpr>)
      requires Valid() && EnumsOf(node) <= AllEnums(docs, root)
      modifies this`types, this`emitted, this`sharedQueue
      ensures old(sharedQueue) <= sharedQueue
      ensures r.Some? ==> Valid() && Grew(old(types), old(emitted), old(sharedQueue))
      ensures r.Some? ==> Gained(old(types), old(sharedQueue), Refs(r.value))
      ensures r.Some? || EnumsListed() ==> r == LowerExpr(docs, inShared, node, seen)
      ensures r.Some? && NamesApart(docs, root) ==> Refs(r.value) <= KnownNames()
      decreases AllDefs(docs) - seen, node, 1
    {
      hide Grows, Valid, Known, NamesApart, AllEnums, EnumsListed;
      if node.RefN? {
        r := Reference(node, seen);
        return;
      }
      var inner := NullableInner(node);
      if inner.Some? {
        assert EnumsOf(inner.value) <= EnumsOf(node);
        var target := TypeExpr(inner.value, seen);
        return if target.None? then None else Some(NullableT(target.value));
      }
      match node {
        case EnumN(_, _, _) =>
          r := InlineEnum(node);
        case StringN(minLength, maxLength, pattern, _) =>
          Same();
          return Some(StringT(minLength, maxLength, pattern));
        case IntegerN(minimum, maximum, _) =>
          Same();
          return if minimum == Some(0) && (maximum.None? || maximum.value == U64_MAX) then Some(U64) else None;
        case BooleanN(_) =>
          Same();
          return Some(BoolT);
        case ArrayN(items, _) =>
          Same();
          if items.None? {
            return None;
          }
          if items.value == BYTE_NODE {
            return Some(BytesT);
          }
          var element := TypeExpr(items.value, seen);
          return if element.None? then None else Some(ListT(element.value));
        case _ =>
          return None;
      }
    }

    /** A reference is its name, with a shared one put in the queue; a nullable alias is followed instead. */
    method Reference(node: Node, seen: set<DefId>) returns (r: Option<TypeExpr>)
      requires Valid() && node.RefN?
      modifies this`types, this`emitted, this`sharedQueue
      ensures old(sharedQueue) <= sharedQueue
      ensures r.Some? ==> Valid() && Grew(old(types), old(emitted), old(sharedQueue))
      ensures r.Some? ==> Gained(old(types), old(sharedQueue), Refs(r.value))
      ensures r.Some? || EnumsListed() ==> r == LowerExpr(docs, inShared, node, seen)
      ensures r.Some? && NamesApart(docs, root) ==> Refs(r.value) <= KnownNames()
      ensures r.Some? ==>
                var d := Lookup(docs, inShared, node).value;
                NullableInner(DefOf(docs, d)).None? && d.inShared ==> d.name in sharedQueue
      ensures r.Some? && r.value.Ref? ==> types == old(types)
      decreases AllDefs(docs) - seen, node, 0
    {
      var d := Lookup(docs, inShared, node);
      if d.None? || !IsDeclared(DefOf(docs, d.value)) {
        return None;
      }
      if NullableInner(DefOf(docs, d.value)).Some? {
        if d.value in seen {
          return None;
        }
        assert InlineEnums(DefOf(docs, d.value)) <= AllEnums(docs, root);
        r := TypeExpr(DefOf(docs, d.value), seen + {d.value});
        assert r.Some? ==> r.value.NullableT?;
        return;
      }
      hide Valid, Grows, Known;
      Refer(d.value);
      return Some(Ref(node.name));
    }

    lemma Same()
      ensures Grew(types, emitted, sharedQueue) && forall names :: Gained(types, sharedQueue, names)
    {
    }

    /** A reference to a shared definition puts it in the queue, once. */
    method Refer(d: DefId)
      requires Valid() && Live(docs, d) && NullableInner(DefOf(docs, d)).None?
      modifies this`sharedQueue
      ensures Valid() && Grew(types, emitted, old(sharedQueue)) && old(sharedQueue) <= sharedQueue
      ensures Gained(types, old(sharedQueue), {d.name})
      ensures d.inShared ==> d.name in sharedQueue
      ensures d.name in KnownNames()
    {
      if d.inShared && d.name !in sharedQueue {
        hide EntryOk, EnumNames, NamesApart;
        if NamesApart(docs, root) {
          TidyQueues(docs, root, types, emitted, sharedQueue, d.name);
        }
        sharedQueue := sharedQueue + [d.name];
        assert forall n <- sharedQueue :: n in old(sharedQueue) || n == d.name;
        assert forall n <- old(sharedQueue) :: n in sharedQueue;
      }
      assert d.inShared ==> d.name in sharedQueue;
    }

    /** An inline enum is emitted under its own name, unless that name was emitted before. */
    method InlineEnum(node: Node) returns (r: Option<TypeExpr>)
      requires Valid() && node.EnumN? && EnumsOf(node) <= AllEnums(docs, root)
      modifies this`types, this`emitted
      ensures r.Some? ==> Valid() && Grew(old(types), old(emitted), sharedQueue)
      ensures r.Some? ==> Gained(old(types), sharedQueue, Refs(r.value))
      ensures r.Some? || EnumsListed() ==> r == LowerExpr(docs, inShared, node, {})
      ensures r.Some? ==> node.typeName.Some? && r == Some(Ref(node.typeName.value))
      ensures r.Some? && NamesApart(docs, root) ==> node.typeName.value in KnownNames()
    {
      if node.typeName.None? || !IsPascal(node.typeName.value) {
        return None;
      }
      var name := node.typeName.value;
      assert (name, node.values) in AllEnums(docs, root) && name in EnumNames(docs, root);
      assert Refs(Ref(name)) == {name} && LowerExpr(docs, inShared, node, {}) == Some(Ref(name));
      hide EnumsOf, AllEnums, EnumNames, EntryOk, Adds, LowerExpr, Refs, Grows;
      Same();
      if name !in emitted {
        var enumType := EnumType(node);
        if enumType.None? {
          return None;
        }
        AddEnum(Named(name, enumType.value));
      }
      return Some(Ref(name));
    }

    method AddEnum(t: Named)
      requires Valid() && t.name !in emitted && t.decl.Enum? && t.decl.values != []
      requires (t.name, t.decl.values) in AllEnums(docs, root)
      modifies this`types, this`emitted
      ensures Valid() && Grew(old(types), old(emitted), sharedQueue) && Gained(old(types), sharedQueue, {t.name})
      ensures types == old(types) + [t] && emitted == old(emitted) + {t.name}
    {
      assert t.name in EnumNames(docs, root) && DeclRefs(t.decl) == {};
      hide EntryOk, AllEnums, EnumNames, DeclRefs;
      assert EntryOk(docs, root, t);
      if NamesApart(docs, root) {
        TidyAppends(docs, root, types, emitted, sharedQueue, t);
      }
      types, emitted := types + [t], emitted + {t.name};
      assert t in types;
    }

    method EnumType(node: Node) returns (r: Option<Decl>)
      requires node.EnumN?
      ensures r == if node.values == [] then None else Some(Enum(node.values))
    {
      return if node.values == [] then None else Some(Enum(node.values));
    }

    method RecordType(node: Node) returns (r: Option<Decl>)
      requires Valid() && node.ObjectN? && EnumsOf(node) <= AllEnums(docs, root)
      modifies this`types, this`emitted, this`sharedQueue
      ensures old(sharedQueue) <= sharedQueue
      ensures r.Some? ==> Valid() && Grew(old(types), old(emitted), old(sharedQueue))
      ensures r.Some? ==> Gained(old(types), old(sharedQueue), DeclRefs(r.value))
      ensures r.Some? || EnumsListed() ==> r == LowerRecord(docs, inShared, node)
      ensures r.Some? && NamesApart(docs, root) ==> DeclRefs(r.value) <= KnownNames()
    {
      if !node.closed || node.properties == map[] || !(node.required <= node.properties.Keys) {
        return None;
      }
      assert forall k <- node.properties :: EnumsOf(node.properties[k]) <= AllEnums(docs, root);
      hide Valid, Grows, Adds, Known, NamesApart, EnumsOf, AllEnums, EnumsListed, LowerRecord, DeclRefs;
      r := FieldTypes(node);
    }

    method FieldTypes(node: Node) returns (r: Option<Decl>)
      requires Valid() && node.ObjectN?
      requires forall k <- node.properties :: EnumsOf(node.properties[k]) <= AllEnums(docs, root)
      requires node.closed && node.properties != map[] && node.required <= node.properties.Keys
      modifies this`types, this`emitted, this`sharedQueue
      ensures old(sharedQueue) <= sharedQueue
      ensures r.Some? ==> Valid() && Grew(old(types), old(emitted), old(sharedQueue))
      ensures r.Some? ==> Gained(old(types), old(sharedQueue), DeclRefs(r.value))
      ensures r.Some? || EnumsListed() ==> r == LowerRecord(docs, inShared, node)
      ensures r.Some? && NamesApart(docs, root) ==> DeclRefs(r.value) <= KnownNames()
    {
      hide EnumsOf, AllEnums, EntryOk, EnumsListed, NamesApart, Known, Valid, Grows, Adds, LowerRecord, LowerExpr,
           Names,
           Refs;
      Same();
      var fields: map<string, Field> := map[];
      NothingLowered(docs, inShared, node);
      hide FieldsLower, DeclRefs;
      var todo := node.properties.Keys;
      while todo != {}
        invariant todo <= node.properties.Keys && fields.Keys == node.properties.Keys - todo
        invariant Valid() && Grew(old(types), old(emitted), old(sharedQueue)) && old(sharedQueue) <= sharedQueue
        invariant Gained(old(types), old(sharedQueue), DeclRefs(Record(fields)))
        invariant FieldsLower(docs, inShared, node, fields)
        invariant NamesApart(docs, root) ==> DeclRefs(Record(fields)) <= KnownNames()
      {
        var k :| k in todo;
        if !IsSnake(k) {
          FieldFails(docs, inShared, node, k);
          return None;
        }
        ghost var types1, emitted1, queue1 := types, emitted, sharedQueue;
        var ty := TypeExpr(node.properties[k], {});
        if ty.None? {
          if EnumsListed() {
            FieldFails(docs, inShared, node, k);
          }
          return None;
        }
        GrowsOn(docs, root, old(types), old(emitted), old(sharedQueue), types1, emitted1, queue1, types, emitted,
                sharedQueue);
        FieldAdded(docs, inShared, node, fields, k, ty.value);
        ghost var refs := DeclRefs(Record(fields));
        fields := fields[k := Field(k !in node.required, ty.value)];
        AddsOn(old(types), old(sharedQueue), types1, queue1, refs, types, sharedQueue, Refs(ty.value),
               DeclRefs(Record(fields)));
        todo := todo - {k};
      }
      AllFieldsLower(docs, inShared, node, fields);
      return Some(Record(fields));
    }

    method UnionVariant(branch: Node) returns (r: Option<Variant>)
      requires Valid() && EnumsOf(branch) <= AllEnums(docs, root)
      modifies this`types, this`emitted, this`sharedQueue
      ensures old(sharedQueue) <= sharedQueue
      ensures r.Some? ==> Valid() && Grew(old(types), old(emitted), old(sharedQueue))
      ensures r.Some? ==> Gained(old(types), old(sharedQueue), VariantRefs(r.value))
      ensures r.Some? || EnumsListed() ==> r == LowerBranch(docs, inShared, branch)
      ensures r.Some? && NamesApart(docs, root) ==> VariantRefs(r.value) <= KnownNames()
    {
      if branch.ConstN? {
        return if IsPascal(branch.value) then Some(Variant(branch.value, None)) else None;
      }
      if IsTagged(branch) {
        var tag := OnlyKey(branch.properties);
        var payload := TypeExpr(branch.properties[tag], {});
        return if payload.None? || !IsPascal(tag) then None else Some(Variant(tag, payload));
      }
      return None;
    }

    method UnionType(node: Node) returns (r: Option<Decl>)
      requires Valid() && node.OneOfN? && EnumsOf(node) <= AllEnums(docs, root)
      modifies this`types, this`emitted, this`sharedQueue
      ensures old(sharedQueue) <= sharedQueue
      ensures r.Some? ==> Valid() && Grew(old(types), old(emitted), old(sharedQueue))
      ensures r.Some? ==> Gained(old(types), old(sharedQueue), DeclRefs(r.value))
      ensures r.Some? || EnumsListed() ==> r == LowerDecl(docs, inShared, node)
      ensures r.Some? && NamesApart(docs, root) ==> DeclRefs(r.value) <= KnownNames()
    {
      hide LowerBranches, LowerBranch, LowerDecl, LowerExpr, EnumsOf, AllEnums, EntryOk, EnumsListed, NamesApart, Known,
           Valid, Grows, UnionOf, DeclRefs, Adds, VariantRefs;
      UnionShape(docs, root, inShared, node);
      Same();
      var variants: seq<Variant> := [];
      for i := 0 to |node.branches|
        invariant Valid() && Grew(old(types), old(emitted), old(sharedQueue)) && old(sharedQueue) <= sharedQueue
        invariant Gained(old(types), old(sharedQueue), DeclRefs(Union(variants)))
        invariant LowerBranches(docs, inShared, node.branches[..i]) == Some(variants)
        invariant NamesApart(docs, root) ==> DeclRefs(Union(variants)) <= KnownNames()
      {
        NextBranch(docs, inShared, node.branches, i);
        ghost var types1, emitted1, queue1 := types, emitted, sharedQueue;
        var variant := UnionVariant(node.branches[i]);
        if variant.None? {
          if EnumsListed() {
            BranchFails(docs, inShared, node.branches, i + 1);
          }
          return None;
        }
        GrowsOn(docs, root, old(types), old(emitted), old(sharedQueue), types1, emitted1, queue1, types, emitted,
                sharedQueue);
        VariantAdded(variants, variant.value);
        AddsOn(old(types), old(sharedQueue), types1, queue1, DeclRefs(Union(variants)), types, sharedQueue,
               VariantRefs(variant.value), DeclRefs(Union(variants + [variant.value])));
        variants := variants + [variant.value];
      }
      assert node.branches[..|node.branches|] == node.branches;
      assert LowerBranches(docs, inShared, node.branches) == Some(variants);
      r := UnionOf(Some(variants));
    }

    method Declaration(node: Node) returns (r: Option<Decl>)
      requires Valid() && InlineEnums(node) <= AllEnums(docs, root) && IsDeclared(node) && NullableInner(node).None?
      modifies this`types, this`emitted, this`sharedQueue
      ensures old(sharedQueue) <= sharedQueue
      ensures r.Some? ==> Valid() && Grew(old(types), old(emitted), old(sharedQueue))
      ensures r.Some? ==> Gained(old(types), old(sharedQueue), DeclRefs(r.value))
      ensures r.Some? || EnumsListed() ==> r == LowerDecl(docs, inShared, node)
      ensures r.Some? && NamesApart(docs, root) ==> DeclRefs(r.value) <= KnownNames()
    {
      if node.EnumN? {
        r := EnumType(node);
      } else if node.ObjectN? {
        r := RecordType(node);
      } else if node.OneOfN? {
        r := UnionType(node);
      } else {
        var target := TypeExpr(node, {});
        r := if target.None? then None else Some(Alias(target.value));
      }
    }

    method AddDeclaration(t: Named)
      requires Valid() && EntryOk(docs, root, t)
      requires NamesApart(docs, root) ==> t.name !in Names(types) && DeclRefs(t.decl) <= KnownNames()
      requires t.name in emitted || (root.EnvelopeRoot? && t.name == root.name)
      modifies this`types
      ensures Valid() && types == old(types) + [t] && Names(types) == Names(old(types)) + {t.name}
    {
      assert forall u <- types + [t] :: u in types || u == t;
      hide EntryOk, NamesApart, DeclRefs, EnumNames;
      if NamesApart(docs, root) {
        TidyAppends(docs, root, types, emitted, sharedQueue, t);
        assert emitted + {t.name} == emitted || (root.EnvelopeRoot? && t.name == root.name);
      }
      types := types + [t];
      assert t in types;
    }

    /** Takes a name that is no inline enum's, before its declaration is made. */
    method TakeName(n: string)
      requires Valid() && (NamesApart(docs, root) ==> n !in EnumNames(docs, root))
      modifies this`emitted
      ensures Valid() && emitted == old(emitted) + {n}
      ensures NamesApart(docs, root) && n !in old(emitted) && (root.EnvelopeRoot? ==> n != root.name) ==>
                n !in Names(types)
    {
      hide EntryOk, NamesApart, EnumNames;
      if NamesApart(docs, root) {
        TidyEmits(docs, root, types, emitted, sharedQueue, n);
      }
      emitted := emitted + {n};
    }

    lemma DefinitionIsApart(d: DefId)
      requires Live(docs, d) && NamesApart(docs, root)
      ensures d.name !in EnumNames(docs, root) && (root.EnvelopeRoot? ==> d.name != root.name)
    {
    }

    ghost predicate AddsBlock(n: string, types0: seq<Named>, queue0: seq<string>)
      reads this`types, this`sharedQueue
    {
      types != [] && types[|types| - 1].name == n && Block(docs, root, types0, queue0, types, sharedQueue)
    }

    ghost predicate EmittedFor(d: DefId, types0: seq<Named>, queue0: seq<string>)
      reads this`types, this`sharedQueue
    {
      AddsFor(docs, d, types0, queue0, types, sharedQueue)
    }

    lemma BlockAdded(types0: seq<Named>, emitted0: set<string>, queue0: seq<string>, types1: seq<Named>, n: string)
      requires Valid() && |types| == |types1| + 1 && types == types1 + [types[|types1|]]
      requires types[|types1|].name == n && (NamesApart(docs, root) ==> n !in EnumNames(docs, root))
      requires Grows(docs, root, types0, emitted0, queue0, types1, emitted, sharedQueue)
      requires Adds(types0, queue0, types1, sharedQueue, DeclRefs(types[|types1|].decl))
      ensures NamesApart(docs, root) ==> AddsBlock(n, types0, queue0)
    {
      hide NamesApart, EntryOk, Grows, Adds, Block, DeclRefs, EnumNames;
      if NamesApart(docs, root) {
        MakesBlock(docs, root, types0, emitted0, queue0, types1, emitted, sharedQueue, types, types[|types1|]);
      }
    }

    lemma DefinitionIsListed(d: DefId)
      requires Live(docs, d)
      ensures InlineEnums(DefOf(docs, d)) <= AllEnums(docs, root)
      ensures forall decl | LowerDecl(docs, d.inShared, DefOf(docs, d)) == Some(decl) ::
                EntryOk(docs, root, Named(d.name, decl))
    {
      hide LowerDecl;
    }

    /** Models one definition, once. A name already emitted, be it by an inline enum, is passed over. */
    method Emit(d: DefId) returns (ok: bool)
      requires Valid() && Live(docs, d) && d.inShared == inShared
      modifies this`types, this`emitted, this`sharedQueue
      ensures old(sharedQueue) <= sharedQueue
      ensures ok ==> Valid() && old(types) <= types && Names(old(types)) <= Names(types)
      ensures ok ==> emitted == old(emitted) + {d.name} + (emitted * Names(types))
      ensures ok ==> Names(types) <= Names(old(types)) + {d.name} + EnumNames(docs, root)
      ensures ok ==> EmittedFor(d, old(types), old(sharedQueue))
      ensures ok && d.name !in old(emitted) ==> d.name in Names(types) || EmitsNothing(docs, d.name)
      ensures d.name in old(emitted) ==> ok && types == old(types) && sharedQueue == old(sharedQueue)
      ensures ok && NamesApart(docs, root) && d.name !in old(emitted) && NullableInner(DefOf(docs, d)).None? ==>
                AddsBlock(d.name, old(types), old(sharedQueue))
      ensures NullableInner(DefOf(docs, d)).Some? ==> types == old(types) && sharedQueue == old(sharedQueue)
      ensures EnumsListed() && Models(docs, d) ==> ok
    {
      if d.name in emitted {
        return true;
      }
      ok := EmitNew(d);
    }

    method EmitNew(d: DefId) returns (ok: bool)
      requires Valid() && Live(docs, d) && d.inShared == inShared && d.name !in emitted
      modifies this`types, this`emitted, this`sharedQueue
      ensures old(sharedQueue) <= sharedQueue
      ensures ok ==> Valid() && old(types) <= types && Names(old(types)) <= Names(types)
      ensures ok ==> emitted == old(emitted) + {d.name} + (emitted * Names(types))
      ensures ok ==> Names(types) <= Names(old(types)) + {d.name} + EnumNames(docs, root)
      ensures ok ==> EmittedFor(d, old(types), old(sharedQueue))
      ensures ok && NamesApart(docs, root) && NullableInner(DefOf(docs, d)).None? ==>
                AddsBlock(d.name, old(types), old(sharedQueue))
      ensures ok ==> d.name in Names(types) || EmitsNothing(docs, d.name)
      ensures NullableInner(DefOf(docs, d)).Some? ==> types == old(types) && sharedQueue == old(sharedQueue)
      ensures EnumsListed() && Models(docs, d) ==> ok
    {
      hide Valid, Known, NamesApart, EnumNames, Models, Nullable, Adds, AddsFor, LowerDecl, DeclRefs, AllEnums, EnumsOf,
           LowerRecord, EntryOk;
      if NamesApart(docs, root) {
        DefinitionIsApart(d);
      }
      DefinitionIsListed(d);
      ModelsIff(docs, d);
      AddsNothing(docs, d, types, sharedQueue);
      TakeName(d.name);
      var node := DefOf(docs, d);
      if !IsDeclared(node) {
        return false;
      }
      if NullableInner(node).Some? {
        return true;
      }
      var decl := Declaration(node);
      if decl.None? {
        return false;
      }
      ghost var types1 := types;
      AddDeclaration(Named(d.name, decl.value));
      BlockAdded(old(types), old(emitted) + {d.name}, old(sharedQueue), types1, d.name);
      AddsForItself(docs, d, old(types), old(sharedQueue), types1, sharedQueue, decl.value, types);
      return true;
    }

    ghost predicate InOrder(skeleton: seq<string>)
      reads this`types, this`sharedQueue
    {
      OrderKept(docs, root, skeleton, types, sharedQueue)
    }

    /** Only the envelope names a type outside its fields and payloads. */
    lemma LastCovered()
      requires Valid() && NamesApart(docs, root) && types != []
      requires
        var last := types[|types| - 1];
        && (forall m <- Names(types) | OnlyShared(docs, m) :: m in sharedQueue)
        && (last.decl.Envelope? ==> last.decl.body in KnownNames() && last.decl.body !in EnumNames(docs, root))
      ensures LastIsCovered(docs, root, types, sharedQueue)
    {
      hide EntryOk, AllEnums, DeclRefs;
      var last := types[|types| - 1];
      assert last in types && DeclRefs(last.decl) <= KnownNames();
      forall n <- NamedIn(last.decl)
        ensures (OnlyShared(docs, n) ==> n in sharedQueue) && (n in EnumNames(docs, root) ==> n in Names(types))
      {
        assert n in KnownNames();
      }
    }

    lemma OneMoreBlock(n: string, types0: seq<Named>, queue0: seq<string>, skeleton: seq<string>)
      requires Valid() && OrderKept(docs, root, skeleton, types0, queue0)
      requires NamesApart(docs, root) ==>
                 AddsBlock(n, types0, queue0) && LastIsCovered(docs, root, types, sharedQueue)
      ensures InOrder(skeleton + [n])
    {
      hide EntryOk, Ordered, Block, Skeleton, Tidy, NamesApart, LastIsCovered;
      if NamesApart(docs, root) {
        BlockKeepsOrder(docs, root, types0, queue0, types, sharedQueue);
      }
    }

    ghost predicate Carried(p: (string, Node), body: string)
      reads this`types, this`sharedQueue
    {
      WillCarry(docs, types, sharedQueue, p, body)
    }

    ghost predicate Justified()
      reads this`types, this`sharedQueue
    {
      Justify(docs, root, types, sharedQueue)
    }

    ghost predicate Accounted()
      reads this`types, this`emitted
    {
      forall n <- emitted :: n in Names(types) || EmitsNothing(docs, n)
    }

    method LocalDefinitions() returns (ok: bool)
      requires Valid() && types == [] && emitted == {} && sharedQueue == [] && !inShared
      requires NoneTwice(order) && forall n :: n in order <==> n in docs.local
      modifies this`types, this`emitted, this`sharedQueue
      ensures ok ==> Valid() && Accounted() && Justified() && docs.local.Keys <= emitted
      ensures ok ==> Names(types) <= docs.local.Keys + EnumNames(docs, root)
      ensures ok ==> InOrder(Locals(docs, order))
      ensures (forall n <- docs.local :: NullableInner(docs.local[n]).Some?) ==>
                types == [] && sharedQueue == []
      ensures ok || !EnumsListed() || exists d :: Reached(docs, root, d) && !Models(docs, d)
    {
      hide AllEnums, EnumsOf, EnumNames, EnumsListed, EntryOk, LowerDecl, Tidy, NamesApart, Reached, Models, AddsFor,
           OrderKept, Locals, Block, Justify;
      NothingIsOrdered(docs, root);
      NothingIsJustified(docs, root);
      for i := 0 to |order|
        invariant Valid() && Accounted() && Justified() && forall n <- order[..i] :: n in emitted
        invariant Names(types) <= docs.local.Keys + EnumNames(docs, root)
        invariant InOrder(Locals(docs, order[..i]))
        invariant (forall n <- docs.local :: NullableInner(docs.local[n]).Some?) ==> types == [] && sharedQueue == []
      {
        LocalIsReached(docs, root, order[i]);
        ghost var types1, queue1, emitted1 := types, sharedQueue, emitted;
        ok := Emit(DefId(false, order[i]));
        if !ok {
          return false;
        }
        LocalIsJustified(order[i], types1, queue1);
        NextLocal(docs, order, i);
        LocalInOrder(order[i], Locals(docs, order[..i]), types1, queue1, emitted1);
      }
      assert order[..|order|] == order;
      return true;
    }

    lemma DefinitionCovered(n: string)
      requires Valid() && NamesApart(docs, root) && types != [] && types[|types| - 1].name == n
      requires n in docs.local || OnlyShared(docs, n)
      requires forall m <- Names(types) | OnlyShared(docs, m) :: m in sharedQueue
      ensures LastIsCovered(docs, root, types, sharedQueue)
    {
      hide EntryOk, Tidy, NamesApart, LastIsCovered, Known, Names;
      assert types[|types| - 1] in types;
      DefinitionIsNoEnvelope(docs, root, types[|types| - 1]);
      LastCovered();
    }

    lemma LocalInOrder(n: string, before: seq<string>, types0: seq<Named>, queue0: seq<string>, emitted0: set<string>)
      requires Valid() && n in docs.local && n !in before && OrderKept(docs, root, before, types0, queue0)
      requires n in emitted0 ==> n in Names(types0) || EmitsNothing(docs, n)
      requires Names(types) <= docs.local.Keys + EnumNames(docs, root)
      requires NullableInner(docs.local[n]).Some? ==> types == types0 && sharedQueue == queue0
      requires NamesApart(docs, root) && n !in emitted0 && NullableInner(docs.local[n]).None? ==>
                 AddsBlock(n, types0, queue0)
      ensures InOrder(before + if Nullable(docs.local[n]) then [] else [n])
    {
      LocalAliases(docs);
      NoSharedYet();
      hide EntryOk, Nullable, NullableInner, Ordered, Skeleton, Tidy, NamesApart, Names, EnumNames, LastIsCovered,
           Valid,
           Block;
      if NamesApart(docs, root) && !Nullable(docs.local[n]) {
        NotYet(docs, root, before, types0, queue0, n);
        DefinitionCovered(n);
        OneMoreBlock(n, types0, queue0, before);
      }
    }

    lemma NoSharedYet()
      ensures NamesApart(docs, root) && Names(types) <= docs.local.Keys + EnumNames(docs, root) ==>
                forall m <- Names(types) :: !OnlyShared(docs, m)
    {
    }

    lemma LocalIsJustified(n: string, types0: seq<Named>, queue0: seq<string>)
      requires n in docs.local && Reached(docs, root, DefId(false, n)) && Justify(docs, root, types0, queue0)
      requires EmittedFor(DefId(false, n), types0, queue0)
      requires NullableInner(docs.local[n]).Some? ==> types == types0
      ensures Justified()
    {
      NullableShape(docs.local[n]);
      hide Reached, Mentions, Names, RootMentions;
      if Nullable(docs.local[n]) {
        assert n in Names(types) ==> BearsType(docs, root, n);
      }
      JustifyReached(docs, root, DefId(false, n), types0, queue0, types, sharedQueue);
    }

    /** No shared definition has a type yet. */
    ghost predicate NoShared()
      reads this`types
    {
      NamesApart(docs, root) ==> forall m <- Names(types) :: !OnlyShared(docs, m)
    }

    /** The envelope's record has its type, if it has one, and the queue holds the envelope's body. */
    ghost predicate AwaitsEnvelope(p: (string, Node), body: string, queue0: seq<string>)
      reads this`types, this`sharedQueue
    {
      && OrderKept(docs, root, Locals(docs, order) + if p.1.RefN? then [] else [p.0], types, queue0)
      && queue0 <= sharedQueue && forall n <- sharedQueue :: n in queue0 || n == body
    }

    /** The type the envelope's property is carried by. */
    method EnvelopeVariant(p: (string, Node)) returns (r: Option<string>)
      requires Valid() && Accounted() && Justified() && !inShared && EnumsOf(p.1) <= AllEnums(docs, root)
      requires root.EnvelopeRoot? && |root.properties| == 1 && p == root.properties[0]
      requires NamesApart(docs, root) ==> Names(types) <= docs.local.Keys + EnumNames(docs, root)
      requires InOrder(Locals(docs, order))
      modifies this`types, this`emitted, this`sharedQueue
      ensures r.Some? ==> Valid() && Accounted() && Justified() && Carried(p, r.value)
      ensures r.Some? ==> old(types) <= types && old(emitted) <= emitted && old(sharedQueue) <= sharedQueue
      ensures r.Some? && NamesApart(docs, root) ==> root.name !in Names(types)
      ensures r.Some? ==> NoShared() && exists queue0 :: AwaitsEnvelope(p, r.value, queue0)
      ensures EnumsListed() && HasCarrier(docs, p.1) ==> r.Some?
    {
      CarrierIff(docs, p);
      assert HasCarrier(docs, p.1) ==> p.1.RefN? || p.1.ObjectN?;
      hide AllEnums, EnumsOf, EnumNames, Valid, Known, Justify, HasCarrier, Adds, LowerRecord, OrderKept, Locals,
           NoShared;
      if p.1.RefN? {
        r := EnvelopeReference(p);
      } else if p.1.ObjectN? {
        r := EnvelopeRecord(p);
      } else {
        r := None;
      }
    }

    lemma CarriedAsReference(p: (string, Node))
      requires p.1.RefN? && root.EnvelopeRoot?
      ensures
        var e := LowerExpr(docs, false, p.1, {});
        && (CarriedBy(docs, p, p.1.name) <==> e.Some? && e.value.Ref?)
        && (e.Some? && e.value.Ref? ==>
              var d := Lookup(docs, false, p.1);
              e.value.name == p.1.name && d.Some? && NullableInner(DefOf(docs, d.value)).None?)
      ensures NamesApart(docs, root) ==> root.name !in docs.local && root.name !in EnumNames(docs, root)
    {
      hide EnumNames;
    }

    method EnvelopeReference(p: (string, Node)) returns (r: Option<string>)
      requires Valid() && Accounted() && Justified() && !inShared && p.1.RefN?
      requires root.EnvelopeRoot? && |root.properties| == 1 && p == root.properties[0]
      requires NamesApart(docs, root) ==> Names(types) <= docs.local.Keys + EnumNames(docs, root)
      requires InOrder(Locals(docs, order))
      modifies this`types, this`emitted, this`sharedQueue
      ensures r.Some? ==> Valid() && Accounted() && Justified() && Carried(p, r.value)
      ensures r.Some? ==> old(types) <= types && old(emitted) <= emitted && old(sharedQueue) <= sharedQueue
      ensures r.Some? && NamesApart(docs, root) ==> root.name !in Names(types)
      ensures r.Some? ==> NoShared() && AwaitsEnvelope(p, r.value, old(sharedQueue))
      ensures EnumsListed() && CarriedBy(docs, p, p.1.name) ==> r.Some?
    {
      NoSharedYet();
      hide AllEnums, EnumsOf, EnumNames, Valid, Known, Justify, NamesApart, LowerExpr, CarriedBy, OrderKept, Locals;
      CarriedAsReference(p);
      var target := Reference(p.1, {});
      if target.None? || !target.value.Ref? {
        return None;
      }
      JustifyMore(docs, root, old(types), old(sharedQueue), types, sharedQueue, {p.1.name});
      assert Locals(docs, order) + [] == Locals(docs, order);
      return Some(target.value.name);
    }

    method EnvelopeRecord(p: (string, Node)) returns (r: Option<string>)
      requires Valid() && Accounted() && Justified() && !inShared && EnumsOf(p.1) <= AllEnums(docs, root)
      requires root.EnvelopeRoot? && |root.properties| == 1 && p == root.properties[0] && p.1.ObjectN?
      requires NamesApart(docs, root) ==> Names(types) <= docs.local.Keys + EnumNames(docs, root)
      requires InOrder(Locals(docs, order))
      modifies this`types, this`emitted, this`sharedQueue
      ensures r.Some? ==> Valid() && Accounted() && Justified() && Carried(p, r.value)
      ensures r.Some? ==> old(types) <= types && old(emitted) <= emitted && old(sharedQueue) <= sharedQueue
      ensures r.Some? && NamesApart(docs, root) ==> root.name !in Names(types)
      ensures r.Some? ==> NoShared() && AwaitsEnvelope(p, r.value, sharedQueue)
      ensures EnumsListed() && CarriedBy(docs, p, p.0) ==> r.Some?
    {
      hide AllEnums, EnumsOf, EnumNames, Valid, Known, LowerExpr, LowerRecord, Justify, Adds, OrderKept, Locals,
           NoShared;
      TakeName(p.0);
      ghost var emitted0 := emitted;
      var record := RecordType(p.1);
      if record.None? {
        return None;
      }
      assert EntryOk(docs, root, Named(p.0, record.value));
      hide EntryOk;
      JustifyMore(docs, root, old(types), old(sharedQueue), types, sharedQueue, DeclRefs(record.value));
      hide DeclRefs;
      ghost var types1 := types;
      AddDeclaration(Named(p.0, record.value));
      JustifyOwn(docs, root, types1, sharedQueue, types, p.0);
      BlockAdded(old(types), emitted0, old(sharedQueue), types1, p.0);
      RecordInOrder(p, old(types), old(sharedQueue));
      return Some(p.0);
    }

    lemma RecordHasOwnName(p: (string, Node))
      requires root.EnvelopeRoot? && |root.properties| == 1 && p == root.properties[0] && p.1.ObjectN? && Valid()
      ensures NamesApart(docs, root) ==>
                !OnlyShared(docs, p.0) && forall m <- docs.local.Keys + EnumNames(docs, root) :: !OnlyShared(docs, m)
      ensures forall t <- types :: EntryOk(docs, root, t)
    {
      hide EntryOk, EnumNames;
    }

    lemma RecordInOrder(p: (string, Node), types0: seq<Named>, queue0: seq<string>)
      requires Valid() && root.EnvelopeRoot? && |root.properties| == 1 && p == root.properties[0] && p.1.ObjectN?
      requires NamesApart(docs, root) ==>
                 && AddsBlock(p.0, types0, queue0)
                 && Names(types0) <= docs.local.Keys + EnumNames(docs, root)
                 && Names(types) <= Names(types0) + EnumNames(docs, root) + {p.0}
      requires OrderKept(docs, root, Locals(docs, order), types0, queue0)
      ensures NoShared() && InOrder(Locals(docs, order) + [p.0])
    {
      hide Valid, OrderKept, Locals, Block, NamesApart, EnumNames, LastIsCovered, Names, EntryOk, OnlyShared;
      RecordHasOwnName(p);
      if NamesApart(docs, root) {
        var last := types[|types| - 1];
        assert last in types;
        RecordIsNoEnvelope(docs, root, last);
        LastCovered();
      }
      OneMoreBlock(p.0, types0, queue0, Locals(docs, order));
    }

    lemma EnvelopeCovered(p: (string, Node), body: string, types0: seq<Named>, queue0: seq<string>)
      requires Valid() && root.EnvelopeRoot? && |root.properties| == 1 && p == root.properties[0] && Carried(p, body)
      requires types == types0 + [Named(root.name, Envelope(p.0, body))]
      requires queue0 <= sharedQueue && forall n <- sharedQueue :: n in queue0 || n == body
      requires NamesApart(docs, root) ==> forall m <- Names(types0) :: !OnlyShared(docs, m)
      ensures NamesApart(docs, root) ==>
                AddsBlock(root.name, types0, queue0) && LastIsCovered(docs, root, types, sharedQueue)
    {
      if NamesApart(docs, root) {
        BodyIsKnown(p, body);
        var last := types[|types| - 1];
        hide EntryOk, Valid, LastIsCovered, EnumNames, WillCarry, Known;
        assert NamedIn(last.decl) == {body};
        assert Names(types) == Names(types0) + {root.name};
        LastCovered();
      }
    }

    lemma BodyIsKnown(p: (string, Node), body: string)
      requires root.EnvelopeRoot? && |root.properties| == 1 && p == root.properties[0] && Carried(p, body)
      requires NamesApart(docs, root)
      ensures body in KnownNames() && body !in EnumNames(docs, root)
    {
      hide EnumNames, LowerRecord;
    }

    /** The envelope comes last but for the shared definitions. */
    lemma EnvelopeInOrder(p: (string, Node), body: string, types0: seq<Named>, queue0: seq<string>)
      requires Valid() && root.EnvelopeRoot? && |root.properties| == 1 && p == root.properties[0] && Carried(p, body)
      requires types == types0 + [Named(root.name, Envelope(p.0, body))]
      requires OrderKept(docs, root, Locals(docs, order) + if p.1.RefN? then [] else [p.0], types0, queue0)
      requires queue0 <= sharedQueue && forall n <- sharedQueue :: n in queue0 || n == body
      requires NamesApart(docs, root) ==> forall m <- Names(types0) :: !OnlyShared(docs, m)
      ensures InOrder(Locals(docs, order) + RootNames(root))
    {
      var before := Locals(docs, order) + if p.1.RefN? then [] else [p.0];
      assert before + [root.name] == Locals(docs, order) + RootNames(root);
      hide Valid, OrderKept, Locals, EntryOk;
      EnvelopeCovered(p, body, types0, queue0);
      hide Block, NamesApart, LastIsCovered, WillCarry;
      OneMoreBlock(root.name, types0, queue0, before);
    }

    /** The root's own type, if it has one. A root with no property or several is refused whatever they are. */
    method EnvelopeType() returns (ok: bool)
      requires Valid() && Accounted() && Justified() && !inShared
      requires Names(types) <= docs.local.Keys + EnumNames(docs, root)
      requires InOrder(Locals(docs, order))
      modifies this`types, this`emitted, this`sharedQueue
      ensures ok ==> Valid() && Accounted() && Justified() && old(emitted) <= emitted && !root.BareRoot?
      ensures ok ==> InOrder(Locals(docs, order) + RootNames(root))
      ensures ok && root.EnvelopeRoot? ==>
                && types != [] && IsEnvelopeOf(root, types[|types| - 1])
                && Carried(root.properties[0], types[|types| - 1].decl.body)
      ensures !root.EnvelopeRoot? ==> types == old(types) && sharedQueue == old(sharedQueue)
      ensures EnumsListed() && RootModels(docs, root) ==> ok
    {
      hide OrderKept, Locals;
      if root.EnvelopeRoot? {
        if !root.closed || |root.properties| != 1 || root.required != [root.properties[0].0] {
          return false;
        }
        assert EnumsOf(root.properties[0].1) <= AllEnums(docs, root);
        hide AllEnums, EnumsOf, EnumsListed, EmitsNothing, LowerDecl, LowerRecord, Tidy, EnumNames, CarriedBy,
             HasCarrier, Justify;
        var target := EnvelopeVariant(root.properties[0]);
        if target.None? {
          return false;
        }
        hide NamesApart, Known, WillCarry;
        var envelope := Named(root.name, Envelope(root.properties[0].0, target.value));
        assert EntryOk(docs, root, envelope) && DeclRefs(envelope.decl) == {};
        ghost var types1 := types;
        ghost var queue0 :| AwaitsEnvelope(root.properties[0], target.value, queue0);
        AddDeclaration(envelope);
        JustifyOwn(docs, root, types1, sharedQueue, types, root.name);
        CarriedOn(docs, types1, sharedQueue, types, sharedQueue, root.properties[0], target.value);
        EnvelopeInOrder(root.properties[0], target.value, types1, queue0);
        return true;
      }
      assert Locals(docs, order) + RootNames(root) == Locals(docs, order);
      return !root.BareRoot?;
    }

    lemma SharedInOrder(i: nat, types0: seq<Named>, queue0: seq<string>, emitted0: set<string>)
      requires Valid() && i < |queue0| && queue0 <= sharedQueue
      requires OrderKept(docs, root, Locals(docs, order) + RootNames(root) + queue0[..i], types0, queue0)
      requires queue0[i] in emitted0 ==> queue0[i] in Names(types0) || EmitsNothing(docs, queue0[i])
      requires Names(types) <= Names(types0) + {queue0[i]} + EnumNames(docs, root)
      requires NamesApart(docs, root) && queue0[i] !in emitted0 ==> AddsBlock(queue0[i], types0, queue0)
      ensures InOrder(Locals(docs, order) + RootNames(root) + sharedQueue[..i + 1])
    {
      var n, before := queue0[i], Locals(docs, order) + RootNames(root) + queue0[..i];
      hide Valid, EntryOk, OrderKept, Locals, Block, LastIsCovered, NamesApart, RootNames, EnumNames, Names, OnlyShared,
           NullableInner;
      NextQueued(Locals(docs, order) + RootNames(root), queue0, sharedQueue, i);
      SharedNames(i, types0, queue0);
      if NamesApart(docs, root) {
        NotYet(docs, root, before, types0, queue0, n);
        DefinitionCovered(n);
      }
      OneMoreBlock(n, types0, queue0, before);
    }

    lemma SharedNames(i: nat, types0: seq<Named>, queue0: seq<string>)
      requires Valid() && i < |queue0| && queue0 <= sharedQueue
      requires OrderKept(docs, root, Locals(docs, order) + RootNames(root) + queue0[..i], types0, queue0)
      ensures OnlyShared(docs, queue0[i])
      ensures NamesApart(docs, root) ==>
                && (forall m <- EnumNames(docs, root) :: !OnlyShared(docs, m))
                && NullableInner(docs.shared[queue0[i]]).None?
                && queue0[i] !in Locals(docs, order) + RootNames(root) + queue0[..i]
                && forall m <- Names(types0) | OnlyShared(docs, m) :: m in sharedQueue
    {
      hide EntryOk, Locals, Ordered, Tidy, Skeleton, AllEnums;
      assert sharedQueue[i] == queue0[i];
      if NamesApart(docs, root) {
        var skeleton := Locals(docs, order) + RootNames(root) + queue0[..i];
        forall m <- skeleton ensures m in docs.local || !OnlyShared(docs, m) || m in queue0[..i] {
          if m in Locals(docs, order) {
            LocalsAreListed(docs, order, m);
          }
        }
        assert forall j | 0 <= j < i :: sharedQueue[j] == queue0[j];
        assert forall m <- queue0[..i] :: m in sharedQueue;
        forall m <- Names(types0) | OnlyShared(docs, m) ensures m in sharedQueue {
          SkeletonMember(docs, root, types0, m);
        }
      }
    }

    method SharedDefinitions() returns (ok: bool)
      requires Valid() && Accounted() && Justified() && inShared && InOrder(Locals(docs, order) + RootNames(root))
      modifies this`types, this`emitted, this`sharedQueue
      ensures ok ==> Valid() && Accounted() && Justified() && old(emitted) <= emitted && old(sharedQueue) <= sharedQueue
      ensures ok ==> old(types) <= types && Names(old(types)) <= Names(types) && forall n <- sharedQueue :: n in emitted
      ensures ok ==> InOrder(Locals(docs, order) + RootNames(root) + sharedQueue)
      ensures old(sharedQueue) == [] ==> ok && types == old(types)
      ensures ok || !EnumsListed() || exists d :: Reached(docs, root, d) && !Models(docs, d)
    {
      hide CarriedBy, AllEnums, EnumsOf, EnumsListed, EntryOk, EmitsNothing, LowerDecl, Names, Tidy, NamesApart,
           EnumNames, OrderKept, Locals, Block;
      assert Locals(docs, order) + RootNames(root) + sharedQueue[..0] == Locals(docs, order) + RootNames(root);
      var i := 0;
      while i < |sharedQueue|
        invariant i <= |sharedQueue| && Valid() && Accounted() && Justified()
        invariant old(emitted) <= emitted && old(sharedQueue) <= sharedQueue
        invariant old(types) <= types && Names(old(types)) <= Names(types)
        invariant InOrder(Locals(docs, order) + RootNames(root) + sharedQueue[..i])
        invariant forall n <- sharedQueue[..i] :: n in emitted
        invariant old(sharedQueue) == [] ==> sharedQueue == [] && types == old(types)
        decreases |docs.shared| - i
      {
        var name := sharedQueue[i];
        assert Wanted(docs, root, name) && OnlyShared(docs, name);
        WantedIsReached(docs, root, name);
        ghost var types1, queue1, emitted1 := types, sharedQueue, emitted;
        ok := Emit(DefId(true, name));
        assert name in sharedQueue;
        if !ok {
          return false;
        }
        JustifyReached(docs, root, DefId(true, name), types1, queue1, types, sharedQueue);
        SharedInOrder(i, types1, queue1, emitted1);
        i := i + 1;
        DistinctFits(sharedQueue, docs.shared.Keys);
      }
      assert sharedQueue[..i] == sharedQueue;
      return true;
    }

    /** When definitions and queue are done, all is there: the envelope's carrier, every local definition that
        is not a nullable alias, and whatever anything refers to. */
    lemma AllIsThere()
      requires Valid() && Accounted() && Justified() && docs.local.Keys <= emitted
      requires forall n <- sharedQueue :: n in emitted
      ensures NoneTwice(sharedQueue) && forall n <- Names(types) :: BearsType(docs, root, n)
      ensures forall n <- docs.local :: NullableInner(docs.local[n]).None? ==> n in Names(types)
      ensures forall n <- sharedQueue :: n in Names(types) && n in docs.shared && n !in docs.local
      ensures forall t <- types :: EntryOk(docs, root, t)
      ensures !root.EnvelopeRoot? ==> EnvelopeBuilt(docs, root, types)
      ensures NamesApart(docs, root) ==> Distinct(types) && forall t <- types :: DeclRefs(t.decl) <= Names(types)
    {
    }

    lemma EnvelopeIsBuilt(envelope: Named)
      requires Valid() && Accounted() && docs.local.Keys <= emitted && forall n <- sharedQueue :: n in emitted
      requires envelope in types && IsEnvelopeOf(root, envelope) && Carried(root.properties[0], envelope.decl.body)
      ensures EnvelopeBuilt(docs, root, types)
    {
      assert envelope.decl.body in Names(types);
    }

    /** A model that keeps what `Built` promises. Where names are apart and inline enums list values, it is
        refused exactly for a root that is no envelope, a definition that declares nothing among those reached, or
        documents without any type; it has types for exactly the names it should, in model order. */
    method Build() returns (r: Option<seq<Named>>)
      requires Valid() && types == [] && emitted == {} && sharedQueue == [] && !inShared
      requires NoneTwice(order) && forall n :: n in order <==> n in docs.local
      modifies this`inShared, this`types, this`emitted, this`sharedQueue
      ensures r.Some? ==> Built(docs, root, r.value)
      ensures EnumsListed() && NamesApart(docs, root) ==>
                (r.None? <==>
                  || !RootModels(docs, root) || DeclaresNothing(docs, root)
                  || exists d :: Reached(docs, root, d) && !Models(docs, d))
      ensures NamesApart(docs, root) && r.Some? ==>
                && (forall n :: n in Names(r.value) <==> BearsType(docs, root, n))
                && InModelOrder(docs, root, order, r.value)
    {
      hide CarriedBy, AllEnums, EnumsOf, EnumsListed, EmitsNothing, EntryOk, DeclRefs, RootModels, Models, NamesApart,
           EnumNames, Valid, Accounted, WillCarry, EnvelopeBuilt, Reached, Wanted, Justify, RootMentions, BearsType,
           Locals, OrderKept, InModelOrder;
      LocalAliases(docs);
      var ok := LocalDefinitions();
      if !ok {
        return None;
      }
      ok := EnvelopeType();
      if !ok {
        return None;
      }
      ghost var types1, queue1 := types, sharedQueue;
      inShared := true;
      ok := SharedDefinitions();
      if !ok {
        return None;
      }
      AllIsThere();
      if types == [] || !Distinct(types) || exists t <- types :: !(DeclRefs(t.decl) <= Names(types)) {
        return None;
      }
      if root.EnvelopeRoot? {
        ghost var envelope := types1[|types1| - 1];
        assert envelope in types;
        CarriedOn(docs, types1, queue1, types, sharedQueue, root.properties[0], envelope.decl.body);
        EnvelopeIsBuilt(envelope);
      }
      if NamesApart(docs, root) {
        BuiltModels(docs, root, types);
        BearersHaveTypes(docs, root, types);
        OrderIsKept(docs, root, order, types, sharedQueue);
      }
      return Some(types);
    }
  }
}
