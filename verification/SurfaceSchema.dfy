/** The JSON Schema subset surfaces are written in, what it means, and what each node lowers to. */
module SurfaceSchema {
  import opened Common
  import opened Documents
  import opened WireModel

  /** Keywords that narrow a node and that lowering does not look at, such as a least number of items or a
      sibling of a `$ref`. `Other` is any further one; what it demands is left to the reader. */
  datatype Bound =
    | MinItems(n: int)
    | MaxItems(n: int)
    | MinProperties(n: int)
    | ExclusiveMaximum(n: int)
    | MultipleOf(n: int)
    | Other(keyword: string)

  /** `typed` says whether an object shape also demands an object; without it other values are valid. */
  datatype Node =
    | RefN(toShared: bool, name: string, extra: set<Bound>)
    | OneOfN(branches: seq<Node>, extra: set<Bound>)
    | StringN(minLength: Option<nat>, maxLength: Option<nat>, pattern: Option<string>, extra: set<Bound>)
    | EnumN(typeName: Option<string>, values: seq<string>, extra: set<Bound>)
    | ConstN(value: string, extra: set<Bound>)
    | IntegerN(minimum: Option<int>, maximum: Option<int>, extra: set<Bound>)
    | BooleanN(extra: set<Bound>)
    | NullN(extra: set<Bound>)
    | ArrayN(items: Option<Node>, extra: set<Bound>)
    | ObjectN(properties: map<string, Node>, required: set<string>, closed: bool, typed: bool, extra: set<Bound>)

  const NULL_NODE: Node := NullN({})
  const BYTE_NODE: Node := IntegerN(Some(0), Some(255), {})

  /** The `$defs` of the surface schema and of the shared definitions document. */
  datatype Docs = Docs(local: map<string, Node>, shared: map<string, Node>)

  /** A definition, by the document it stands in and its name there. */
  datatype DefId = DefId(inShared: bool, name: string)

  function AllDefs(docs: Docs): set<DefId> {
    (set n | n in docs.local :: DefId(false, n)) + (set n | n in docs.shared :: DefId(true, n))
  }

  function DefOf(docs: Docs, d: DefId): Node
    requires d in AllDefs(docs)
  {
    if d.inShared then docs.shared[d.name] else docs.local[d.name]
  }

  /** A shared definition whose name the surface schema also defines is never looked up. */
  predicate Live(docs: Docs, d: DefId) {
    d in AllDefs(docs) && (d.inShared ==> d.name !in docs.local)
  }

  /** The definition a reference written in one of the documents denotes. */
  function Denoted(inShared: bool, r: Node): DefId
    requires r.RefN?
  {
    DefId(inShared || r.toShared, r.name)
  }

  // ---------------------------------------------------------------- meaning (JSON Schema Core 2020-12)

  predicate InRange(minimum: Option<int>, maximum: Option<int>, n: int) {
    (minimum.Some? ==> minimum.value <= n) && (maximum.Some? ==> n <= maximum.value)
  }

  /** An integer is any number with a zero fraction. */
  predicate IsInteger(v: Json) {
    v.Int? || (v.Float? && v.r == v.r.Floor as real)
  }

  function IntegerOf(v: Json): int
    requires IsInteger(v)
  {
    if v.Int? then v.n else v.r.Floor
  }

  predicate ExactlyOne(hits: seq<bool>) {
    exists i | 0 <= i < |hits| :: hits[i] && forall j | 0 <= j < |hits| && j != i :: !hits[j]
  }

  /** A reader of schemas that minds only the keywords lowering looks at, or all of them. */
  datatype Reader = Partial(o: Outside) | Whole(o: Outside, further: (string, Json) -> bool)

  predicate BoundHolds(r: Reader, b: Bound, v: Json)
    requires r.Whole?
  {
    match b
    case MinItems(n) => v.Arr? ==> n <= |v.items|
    case MaxItems(n) => v.Arr? ==> |v.items| <= n
    case MinProperties(n) => v.Obj? ==> n <= |v.fields.Keys|
    case ExclusiveMaximum(n) => (v.Int? ==> v.n < n) && (v.Float? ==> v.r < n as real)
    case MultipleOf(n) => v.Int? || v.Float? ==> IsInteger(v) && n != 0 && IntegerOf(v) % n == 0
    case Other(keyword) => r.further(keyword, v)
  }

  predicate BoundsHold(r: Reader, extra: set<Bound>, v: Json) {
    r.Partial? || forall b <- extra :: BoundHolds(r, b, v)
  }

  /** `seen` are the definitions already followed at this very value; a reference that comes back to one
      of them has no well-founded meaning and accepts nothing. */
  ghost predicate Valid(docs: Docs, r: Reader, inShared: bool, node: Node, v: Json, seen: set<DefId>)
    decreases v, AllDefs(docs) - seen, node
  {
    BoundsHold(r, node.extra, v) &&
    match node
    case RefN(_, _, _) =>
      var d := Denoted(inShared, node);
      d in AllDefs(docs) && d !in seen && Valid(docs, r, d.inShared, DefOf(docs, d), v, seen + {d})
    case OneOfN(branches, _) =>
      ExactlyOne(seq(|branches|, i requires 0 <= i < |branches| => Valid(docs, r, inShared, branches[i], v, seen)))
    case StringN(minLength, maxLength, pattern, _) =>
      && v.Str?
      && (minLength.Some? ==> minLength.value <= |v.s|)
      && (maxLength.Some? ==> |v.s| <= maxLength.value)
      && (pattern.Some? ==> r.o.matches(pattern.value, v.s))
    case EnumN(_, values, _) => v.Str? && v.s in values
    case ConstN(value, _) => v == Str(value)
    case IntegerN(minimum, maximum, _) => IsInteger(v) && InRange(minimum, maximum, IntegerOf(v))
    case BooleanN(_) => v.Bool?
    case NullN(_) => v.Null?
    case ArrayN(items, _) =>
      && v.Arr?
      && (items.Some? ==> forall i | 0 <= i < |v.items| :: Valid(docs, r, inShared, items.value, v.items[i], {}))
    case ObjectN(properties, required, closed, typed, _) =>
      if !v.Obj? then !typed
      else
        && required <= v.fields.Keys
        && (closed ==> v.fields.Keys <= properties.Keys)
        && forall k | k in v.fields && k in properties :: Valid(docs, r, inShared, properties[k], v.fields[k], {})
  }

  // ---------------------------------------------------------------- lowering

  /** The non-null branch of a `oneOf` of null and one other shape. */
  function NullableInner(node: Node): (r: Option<Node>)
    ensures r.Some? ==> node.OneOfN? && r.value in node.branches && r.value < node
  {
    if node.OneOfN? && |node.branches| == 2 then
      if node.branches[0] == NULL_NODE && node.branches[1] != NULL_NODE then Some(node.branches[1])
      else if node.branches[1] == NULL_NODE && node.branches[0] != NULL_NODE then Some(node.branches[0])
      else None
    else None
  }

  predicate IsUpper(c: char) { 'A' <= c <= 'Z' }
  predicate IsLower(c: char) { 'a' <= c <= 'z' }
  predicate IsDigit(c: char) { '0' <= c <= '9' }

  predicate IsPascal(s: string) {
    s != "" && IsUpper(s[0]) && forall c <- s :: IsUpper(c) || IsLower(c) || IsDigit(c)
  }

  predicate IsSnake(s: string) {
    s != "" && IsLower(s[0]) && forall c <- s :: IsLower(c) || IsDigit(c) || c == '_'
  }

  predicate IsAlias(node: Node) {
    node.StringN? || node.ConstN? || node.IntegerN? || node.BooleanN?
  }

  /** The shapes a definition may have, besides a nullable alias. */
  predicate IsDeclared(node: Node) {
    node.OneOfN? || node.EnumN? || (node.ObjectN? && node.typed) || IsAlias(node)
  }

  /** Resolution as the builder does it: in the scope of the declaration being modelled. A name both
      documents define is refused when it is looked up in the shared one. */
  function Lookup(docs: Docs, inShared: bool, r: Node): (d: Option<DefId>)
    requires r.RefN?
    ensures d.Some? ==> Live(docs, d.value) && d.value == Denoted(inShared, r)
    ensures d.Some? <==> Live(docs, Denoted(inShared, r))
  {
    var d := Denoted(inShared, r);
    if d !in AllDefs(docs) || (d.inShared && d.name in docs.local) then None else Some(d)
  }

  /** The type expression of a node. A nullable alias is followed where it is used, still in the scope of
      the user; one that leads back to itself never ends, so it has no type. */
  function LowerExpr(docs: Docs, inShared: bool, node: Node, seen: set<DefId>): Option<TypeExpr>
    decreases AllDefs(docs) - seen, node
  {
    if node.RefN? then
      var d := Lookup(docs, inShared, node);
      if d.None? || !IsDeclared(DefOf(docs, d.value)) then None
      else if NullableInner(DefOf(docs, d.value)).Some? then
        if d.value in seen then None else LowerExpr(docs, inShared, DefOf(docs, d.value), seen + {d.value})
      else Some(Ref(node.name))
    else if NullableInner(node).Some? then
      var inner := LowerExpr(docs, inShared, NullableInner(node).value, seen);
      if inner.None? then None else Some(NullableT(inner.value))
    else
      match node
      case EnumN(typeName, _, _) =>
        if typeName.Some? && IsPascal(typeName.value) then Some(Ref(typeName.value)) else None
      case StringN(minLength, maxLength, pattern, _) => Some(StringT(minLength, maxLength, pattern))
      case IntegerN(minimum, maximum, _) =>
        if minimum == Some(0) && (maximum.None? || maximum.value == U64_MAX) then Some(U64) else None
      case BooleanN(_) => Some(BoolT)
      case ArrayN(items, _) =>
        if items.None? then None
        else if items.value == BYTE_NODE then Some(BytesT)
        else
          var element := LowerExpr(docs, inShared, items.value, seen);
          if element.None? then None else Some(ListT(element.value))
      case _ => None
  }

  /** The fields of a closed object; whether it demands an object is not looked at here. */
  function LowerRecord(docs: Docs, inShared: bool, node: Node): Option<Decl> {
    if node.ObjectN? && node.closed && node.properties != map[] && node.required <= node.properties.Keys &&
       (forall k <- node.properties :: IsSnake(k) && LowerExpr(docs, inShared, node.properties[k], {}).Some?)
    then
      Some(Record(map k | k in node.properties ::
                    Field(k !in node.required, LowerExpr(docs, inShared, node.properties[k], {}).value)))
    else None
  }

  predicate IsTagged(branch: Node) {
    && branch.ObjectN? && branch.typed && branch.closed
    && |branch.properties.Keys| == 1 && branch.required == branch.properties.Keys
  }

  function VariantRefs(variant: Variant): set<string> {
    if variant.payload.Some? then Refs(variant.payload.value) else {}
  }

  /** One union branch: a bare string constant, or a closed object with one required key. */
  function LowerBranch(docs: Docs, inShared: bool, branch: Node): Option<Variant> {
    if branch.ConstN? then if IsPascal(branch.value) then Some(Variant(branch.value, None)) else None
    else if IsTagged(branch) then
      assert |branch.properties| == 1;
      var tag := OnlyKey(branch.properties);
      var payload := LowerExpr(docs, inShared, branch.properties[tag], {});
      if payload.None? || !IsPascal(tag) then None else Some(Variant(tag, payload))
    else None
  }

  function LowerBranches(docs: Docs, inShared: bool, branches: seq<Node>): (r: Option<seq<Variant>>)
    ensures r.Some? ==> |r.value| == |branches|
  {
    if branches == [] then Some([])
    else
      var init := LowerBranches(docs, inShared, branches[..|branches| - 1]);
      var last := LowerBranch(docs, inShared, branches[|branches| - 1]);
      if init.None? || last.None? then None else Some(init.value + [last.value])
  }

  /** A union has two or more variants, all tags distinct. */
  function UnionOf(variants: Option<seq<Variant>>): (r: Option<Decl>)
    ensures r.Some? ==> variants.Some? && r.value == Union(variants.value)
    ensures variants.None? ==> r.None?
  {
    if variants.None? || |variants.value| < 2 || !DistinctTags(variants.value) then None
    else Some(Union(variants.value))
  }

  /** The declaration of a definition that is not a nullable alias. */
  function LowerDecl(docs: Docs, inShared: bool, node: Node): Option<Decl> {
    match node
    case EnumN(_, values, _) => if values == [] then None else Some(Enum(values))
    case ObjectN(_, _, _, typed, _) => if typed then LowerRecord(docs, inShared, node) else None
    case OneOfN(branches, _) =>
      UnionOf(LowerBranches(docs, inShared, branches))
    case _ =>
      if !IsAlias(node) then None
      else
        var target := LowerExpr(docs, inShared, node, {});
        if target.None? then None else Some(Alias(target.value))
  }
}
