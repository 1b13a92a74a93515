/** What a finished build of a surface schema is: the types it has, where each comes from, and the documents it is
    refused for. */
module SurfaceOutcome {
  import opened Common
  import opened WireModel
  import opened SurfaceSchema
  import opened SurfaceLowering

  datatype Named = Named(name: string, decl: Decl)

  /** The root of a surface schema: nothing but definitions, a wire shape without an envelope mark, or a
      marked envelope. */
  datatype Root =
    | NoRoot
    | BareRoot
    | EnvelopeRoot(name: string, closed: bool, properties: seq<(string, Node)>, required: seq<string>,
                   extra: set<Bound>)

  function Names(types: seq<Named>): set<string> {
    set t | t in types :: t.name
  }

  predicate Distinct(types: seq<Named>) {
    forall i, j :: 0 <= i < j < |types| ==> types[i].name != types[j].name
  }

  // ---------------------------------------------------------------- inline enums

  /** Every inline enum in a node: its type name and its values. */
  function EnumsOf(node: Node): set<(string, seq<string>)> {
    match node
    case EnumN(typeName, values, _) => if typeName.Some? then {(typeName.value, values)} else {}
    case OneOfN(branches, _) => set i, x | 0 <= i < |branches| && x in EnumsOf(branches[i]) :: x
    case ArrayN(items, _) => if items.Some? then EnumsOf(items.value) else {}
    case ObjectN(properties, _, _, _, _) => set k, x | k in properties && x in EnumsOf(properties[k]) :: x
    case _ => {}
  }

  /** A definition that is itself an enum is named by its key, not inline. */
  function InlineEnums(node: Node): set<(string, seq<string>)> {
    if node.EnumN? then {} else EnumsOf(node)
  }

  function AllEnums(docs: Docs, root: Root): set<(string, seq<string>)> {
    (set d, x | d in AllDefs(docs) && Live(docs, d) && x in InlineEnums(DefOf(docs, d)) :: x) +
    if root.EnvelopeRoot? then set i, x | 0 <= i < |root.properties| && x in EnumsOf(root.properties[i].1) :: x else {}
  }

  // ---------------------------------------------------------------- what a build amounts to

  /** Where an entry of the model comes from. */
  predicate EntryOk(docs: Docs, root: Root, t: Named) {
    || (t.name in docs.local && LowerDecl(docs, false, docs.local[t.name]) == Some(t.decl))
    || (t.name in docs.shared && t.name !in docs.local && LowerDecl(docs, true, docs.shared[t.name]) == Some(t.decl))
    || (t.decl.Enum? && t.decl.values != [] && (t.name, t.decl.values) in AllEnums(docs, root))
    || (root.EnvelopeRoot? && (exists p <- root.properties ::
          p.0 == t.name && !p.1.RefN? && LowerRecord(docs, false, p.1) == Some(t.decl)))
    || (root.EnvelopeRoot? && t.decl.Envelope? && t.name == root.name)
  }

  /** The type an envelope property is carried by: the definition it refers to, or a record of its own. */
  predicate CarriedBy(docs: Docs, p: (string, Node), body: string) {
    if p.1.RefN? then
      && body == p.1.name && Lookup(docs, false, p.1).Some?
      && IsDeclared(DefOf(docs, Lookup(docs, false, p.1).value))
      && NullableInner(DefOf(docs, Lookup(docs, false, p.1).value)).None?
    else body == p.0 && LowerRecord(docs, false, p.1).Some?
  }

  /** The envelope a marked root declares: a closed object whose one property, the tag, is required. */
  predicate IsEnvelopeOf(root: Root, t: Named) {
    && root.EnvelopeRoot? && root.closed && |root.properties| == 1 && root.required == [root.properties[0].0]
    && t.name == root.name && t.decl.Envelope? && t.decl.tag == root.properties[0].0
  }

  predicate EnvelopeBuilt(docs: Docs, root: Root, types: seq<Named>) {
    root.EnvelopeRoot? ==>
      exists t <- types ::
        IsEnvelopeOf(root, t) && t.decl.body in Names(types) && CarriedBy(docs, root.properties[0], t.decl.body)
  }

  /** What a finished build promises. */
  predicate Built(docs: Docs, root: Root, types: seq<Named>) {
    && types != [] && Distinct(types)
    && (forall t <- types :: EntryOk(docs, root, t) && DeclRefs(t.decl) <= Names(types))
    && (forall n <- docs.local :: NullableInner(docs.local[n]).None? ==> n in Names(types))
    && !root.BareRoot? && EnvelopeBuilt(docs, root, types)
  }

  /** Nullable aliases are modelled where they are used, so emitting one adds no type. */
  predicate EmitsNothing(docs: Docs, n: string) {
    if n in docs.local then NullableInner(docs.local[n]).Some?
    else n in docs.shared && NullableInner(docs.shared[n]).Some?
  }

  ghost predicate Models(docs: Docs, d: DefId) {
    d in AllDefs(docs) && (Nullable(DefOf(docs, d)) || Declares(docs, d.inShared, DefOf(docs, d)))
  }

  /** A marked root is a closed object whose one property, the tag, is required. */
  ghost predicate RootModels(docs: Docs, root: Root) {
    !root.BareRoot? &&
    (root.EnvelopeRoot? ==>
      && root.closed && |root.properties| == 1 && root.required == [root.properties[0].0]
      && HasCarrier(docs, root.properties[0].1))
  }

  /** An envelope property is a record, or refers to a definition that is no nullable alias. */
  ghost predicate HasCarrier(docs: Docs, node: Node) {
    if node.RefN? then
      var d := Denoted(false, node);
      Live(docs, d) && CanBeNamed(DefOf(docs, d)) && !Nullable(DefOf(docs, d))
    else IsRecord(docs, false, node)
  }

  lemma LocalAliases(docs: Docs)
    ensures forall n <- docs.local :: Nullable(docs.local[n]) <==> NullableInner(docs.local[n]).Some?
  {
    forall n <- docs.local ensures Nullable(docs.local[n]) <==> NullableInner(docs.local[n]).Some? {
      NullableShape(docs.local[n]);
    }
  }

  /** Nothing but nullable aliases: no type at all. */
  ghost predicate DeclaresNothing(docs: Docs, root: Root) {
    !root.EnvelopeRoot? && forall n <- docs.local :: Nullable(docs.local[n])
  }

  lemma ModelsIff(docs: Docs, d: DefId)
    requires d in AllDefs(docs)
    ensures Models(docs, d) <==>
            NullableInner(DefOf(docs, d)).Some? || LowerDecl(docs, d.inShared, DefOf(docs, d)).Some?
    ensures Models(docs, d) ==> IsDeclared(DefOf(docs, d))
    ensures Nullable(DefOf(docs, d)) <==> NullableInner(DefOf(docs, d)).Some?
  {
    NullableShape(DefOf(docs, d));
    DeclLowersIff(docs, d.inShared, DefOf(docs, d));
  }

  lemma CarrierIff(docs: Docs, p: (string, Node))
    ensures HasCarrier(docs, p.1) <==> CarriedBy(docs, p, if p.1.RefN? then p.1.name else p.0)
  {
    if p.1.RefN? {
      if Live(docs, Denoted(false, p.1)) {
        NullableShape(DefOf(docs, Denoted(false, p.1)));
      }
    } else {
      RecordLowersIff(docs, false, p.1);
    }
  }

  // ---------------------------------------------------------------- what a build has to look at

  /** A definition's own declaration names another type. */
  ghost predicate Mentions(docs: Docs, d: DefId, n: string) {
    d in AllDefs(docs) && !Nullable(DefOf(docs, d)) &&
    var decl := LowerDecl(docs, d.inShared, DefOf(docs, d));
    decl.Some? && n in DeclRefs(decl.value)
  }

  /** The envelope, or its own record, names a type. */
  ghost predicate RootMentions(docs: Docs, root: Root, n: string) {
    root.EnvelopeRoot? && |root.properties| == 1 &&
    var node := root.properties[0].1;
    if node.RefN? then n == node.name
    else
      var record := LowerRecord(docs, false, node);
      record.Some? && n in DeclRefs(record.value)
  }

  ghost predicate OnlyShared(docs: Docs, n: string) {
    n in docs.shared && n !in docs.local
  }

  /** All local definitions, and the shared ones that the envelope or one of the set names. */
  ghost predicate ClosedDefs(docs: Docs, root: Root, defs: set<DefId>) {
    && (forall n <- docs.local :: DefId(false, n) in defs)
    && (forall n | OnlyShared(docs, n) && RootMentions(docs, root, n) :: DefId(true, n) in defs)
    && (forall d <- defs, n | OnlyShared(docs, n) && Mentions(docs, d, n) :: DefId(true, n) in defs)
  }

  /** The definition belongs to the least closed set. */
  ghost predicate Reached(docs: Docs, root: Root, d: DefId) {
    forall defs | ClosedDefs(docs, root, defs) :: d in defs
  }

  ghost predicate Wanted(docs: Docs, root: Root, n: string) {
    RootMentions(docs, root, n) || exists d :: Reached(docs, root, d) && Mentions(docs, d, n)
  }

  /** All that has a type or waits for one belongs in the model. */
  ghost predicate Justify(docs: Docs, root: Root, types: seq<Named>, queue: seq<string>) {
    (forall n <- Names(types) :: BearsType(docs, root, n)) && forall n <- queue :: Wanted(docs, root, n)
  }

  lemma WantedIsReached(docs: Docs, root: Root, n: string)
    requires Wanted(docs, root, n) && OnlyShared(docs, n)
    ensures Reached(docs, root, DefId(true, n))
  {
    hide RootMentions, Mentions;
  }

  lemma LocalIsReached(docs: Docs, root: Root, n: string)
    requires n in docs.local
    ensures Reached(docs, root, DefId(false, n))
  {
  }

  /** The names a model gives types to. */
  ghost predicate BearsType(docs: Docs, root: Root, n: string) {
    || (n in docs.local && !Nullable(docs.local[n]))
    || (root.EnvelopeRoot? && n == root.name)
    || (root.EnvelopeRoot? && |root.properties| == 1 && !root.properties[0].1.RefN? && n == root.properties[0].0)
    || Wanted(docs, root, n)
  }

  // ---------------------------------------------------------------- names that never collide

  function EnumNames(docs: Docs, root: Root): set<string> {
    set x | x in AllEnums(docs, root) :: x.0
  }

  predicate OwnName(docs: Docs, root: Root, n: string) {
    n !in docs.local && n !in docs.shared && n !in EnumNames(docs, root)
  }

  /** Inline enums, the envelope and its inline record bear names of their own. */
  predicate NamesApart(docs: Docs, root: Root) {
    && (forall n <- EnumNames(docs, root) :: n !in docs.local && n !in docs.shared)
    && (root.EnvelopeRoot? ==>
          && |root.properties| == 1 && OwnName(docs, root, root.name)
          && (!root.properties[0].1.RefN? ==>
                root.properties[0].0 != root.name && OwnName(docs, root, root.properties[0].0)))
  }

  // ---------------------------------------------------------------- what is built is what is reached

  /** With names apart, a type that bears a definition's name is that definition's lowering. */
  lemma NamesakeModels(docs: Docs, root: Root, t: Named)
    requires EntryOk(docs, root, t) && NamesApart(docs, root)
    ensures t.name in docs.local ==>
              Models(docs, DefId(false, t.name)) && LowerDecl(docs, false, docs.local[t.name]) == Some(t.decl)
    ensures OnlyShared(docs, t.name) ==>
              Models(docs, DefId(true, t.name)) && LowerDecl(docs, true, docs.shared[t.name]) == Some(t.decl)
    ensures root.EnvelopeRoot? && !root.properties[0].1.RefN? && t.name == root.properties[0].0 ==>
              LowerRecord(docs, false, root.properties[0].1) == Some(t.decl)
  {
    hide LowerDecl, LowerRecord, AllEnums, Models;
    if t.name in docs.local {
      ModelsIff(docs, DefId(false, t.name));
    } else if t.name in docs.shared {
      ModelsIff(docs, DefId(true, t.name));
    }
    assert t.decl.Enum? && (t.name, t.decl.values) in AllEnums(docs, root) ==> t.name in EnumNames(docs, root);
  }

  /** The definitions a model has dealt with. */
  function Done(docs: Docs, types: seq<Named>): set<DefId> {
    set d | d in AllDefs(docs) && Live(docs, d) && (d.inShared ==> d.name in Names(types))
  }

  lemma DoneModels(docs: Docs, root: Root, types: seq<Named>, d: DefId)
    requires Built(docs, root, types) && NamesApart(docs, root) && d in Done(docs, types)
    ensures Models(docs, d)
    ensures forall n | Mentions(docs, d, n) :: n in Names(types)
  {
    ModelsIff(docs, d);
    NullableShape(DefOf(docs, d));
    hide LowerDecl, EntryOk, NamesApart, DeclRefs, Models, EnvelopeBuilt;
    if !Nullable(DefOf(docs, d)) {
      assert d.name in Names(types);
      var t :| t in types && t.name == d.name;
      NamesakeModels(docs, root, t);
    }
  }

  lemma RootIsDone(docs: Docs, root: Root, types: seq<Named>, n: string)
    requires Built(docs, root, types) && NamesApart(docs, root) && RootMentions(docs, root, n)
    ensures n in Names(types)
  {
    hide LowerRecord, LowerDecl, EntryOk, NamesApart, DeclRefs;
    assert EnvelopeBuilt(docs, root, types);
    if !root.properties[0].1.RefN? {
      var t :| t in types && t.name == root.properties[0].0;
      NamesakeModels(docs, root, t);
    }
  }

  lemma DoneIsClosed(docs: Docs, root: Root, types: seq<Named>)
    requires Built(docs, root, types) && NamesApart(docs, root)
    ensures ClosedDefs(docs, root, Done(docs, types))
  {
    hide Built, NamesApart, RootMentions, Mentions, Names;
    forall n | OnlyShared(docs, n) && RootMentions(docs, root, n) ensures DefId(true, n) in Done(docs, types) {
      RootIsDone(docs, root, types, n);
    }
    forall d <- Done(docs, types), n | OnlyShared(docs, n) && Mentions(docs, d, n)
      ensures DefId(true, n) in Done(docs, types)
    {
      DoneModels(docs, root, types, d);
    }
  }

  /** A finished build has dealt with all that is reached, and has a type for every name one of them names. */
  lemma BuiltModels(docs: Docs, root: Root, types: seq<Named>)
    requires Built(docs, root, types) && NamesApart(docs, root)
    ensures RootModels(docs, root)
    ensures forall d | Reached(docs, root, d) :: Models(docs, d)
    ensures forall n | Wanted(docs, root, n) :: n in Names(types)
  {
    if root.EnvelopeRoot? {
      CarrierIff(docs, root.properties[0]);
    }
    DoneIsClosed(docs, root, types);
    assert RootModels(docs, root) by { hide CarriedBy, EntryOk, HasCarrier, DeclRefs; }
    hide Built, NamesApart, RootMentions, Mentions, Names, Models, ClosedDefs, RootModels, Done;
    forall d | Reached(docs, root, d) ensures Models(docs, d) {
      DoneModels(docs, root, types, d);
    }
    forall n | Wanted(docs, root, n) ensures n in Names(types) {
      if RootMentions(docs, root, n) {
        RootIsDone(docs, root, types, n);
      } else {
        var d :| Reached(docs, root, d) && Mentions(docs, d, n);
        DoneModels(docs, root, types, d);
      }
    }
  }

  lemma BearersHaveTypes(docs: Docs, root: Root, types: seq<Named>)
    requires Built(docs, root, types) && forall n | Wanted(docs, root, n) :: n in Names(types)
    ensures forall n | BearsType(docs, root, n) :: n in Names(types)
  {
    hide EntryOk, DeclRefs, Wanted;
    LocalAliases(docs);
  }
}
