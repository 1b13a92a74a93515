/** What lowers, read off the documents: the condition under which a node has a type, a definition a declaration
    and an envelope property a carrier. */
module SurfaceLowering {
  import opened Common
  import opened Documents
  import opened WireModel
  import opened SurfaceSchema

  // ---------------------------------------------------------------- names

  const UPPER := "ABCDEFGHIJKLMNOPQRSTUVWXYZ"
  const LOWER := "abcdefghijklmnopqrstuvwxyz"
  const DIGITS := "0123456789"

  predicate PascalCase(s: string) {
    s != "" && s[0] in UPPER && forall c <- s :: c in UPPER || c in LOWER || c in DIGITS
  }

  predicate SnakeCase(s: string) {
    s != "" && s[0] in LOWER && forall c <- s :: c in LOWER || c in DIGITS || c == '_'
  }

  lemma UpperCase(c: char)
    ensures c in UPPER <==> IsUpper(c)
  {
    assert |UPPER| == 26 && forall i | 0 <= i < 26 :: UPPER[i] as int == 'A' as int + i;
    assert IsUpper(c) ==> UPPER[c as int - 'A' as int] == c;
  }

  lemma LowerCase(c: char)
    ensures c in LOWER <==> IsLower(c)
  {
    assert |LOWER| == 26 && forall i | 0 <= i < 26 :: LOWER[i] as int == 'a' as int + i;
    assert IsLower(c) ==> LOWER[c as int - 'a' as int] == c;
  }

  lemma DecimalDigit(c: char)
    ensures c in DIGITS <==> IsDigit(c)
  {
    assert |DIGITS| == 10 && forall i | 0 <= i < 10 :: DIGITS[i] as int == '0' as int + i;
    assert IsDigit(c) ==> DIGITS[c as int - '0' as int] == c;
  }

  lemma NameForms(s: string)
    ensures IsPascal(s) <==> PascalCase(s)
    ensures IsSnake(s) <==> SnakeCase(s)
  {
    forall c: char
      ensures c in UPPER <==> IsUpper(c)
      ensures c in LOWER <==> IsLower(c)
      ensures c in DIGITS <==> IsDigit(c)
    {
      UpperCase(c);
      LowerCase(c);
      DecimalDigit(c);
    }
  }

  // ---------------------------------------------------------------- nodes

  /** The integers that are valid at the node are those from 0 up to `top`, or all from 0. */
  ghost predicate TakesUpTo(docs: Docs, inShared: bool, node: Node, top: Option<nat>) {
    forall o: Outside, n: int ::
      Valid(docs, Partial(o), inShared, node, Int(n), {}) <==> 0 <= n && (top.Some? ==> n <= top.value)
  }

  /** Null or one other shape, in either order. */
  predicate OrNull(node: Node, inner: Node) {
    node.OneOfN? && inner != NullN({}) && (node.branches == [NullN({}), inner] || node.branches == [inner, NullN({})])
  }

  ghost predicate Nullable(node: Node) {
    exists inner | inner < node :: OrNull(node, inner)
  }

  /** A definition of any other shape cannot even be referred to. */
  predicate CanBeNamed(node: Node) {
    !node.RefN? && !node.ArrayN? && !node.NullN? && (node.ObjectN? ==> node.typed)
  }

  /** The node has a type when at most `depth` nullable aliases are followed on the way: whatever number a definition
      may have, a reference to an alias is as good as the alias, and references lead to definitions with a name in
      one document only. */
  ghost predicate HasTypeIn(docs: Docs, inShared: bool, node: Node, depth: nat)
    decreases depth, node
  {
    match node
    case RefN(_, _, _) =>
      var d := Denoted(inShared, node);
      Live(docs, d) && CanBeNamed(DefOf(docs, d)) &&
      (Nullable(DefOf(docs, d)) ==> depth > 0 && HasTypeIn(docs, inShared, DefOf(docs, d), depth - 1))
    case OneOfN(_, _) => exists inner | inner < node :: OrNull(node, inner) && HasTypeIn(docs, inShared, inner, depth)
    case StringN(_, _, _, _) => true
    case BooleanN(_) => true
    case IntegerN(_, _, _) =>
      TakesUpTo(docs, inShared, node, None) || TakesUpTo(docs, inShared, node, Some(0xFFFF_FFFF_FFFF_FFFF))
    case EnumN(typeName, _, _) => typeName.Some? && PascalCase(typeName.value)
    case ArrayN(items, _) =>
      items.Some? && (items.value == IntegerN(Some(0), Some(255), {}) || HasTypeIn(docs, inShared, items.value, depth))
    case ConstN(_, _) => false
    case NullN(_) => false
    case ObjectN(_, _, _, _, _) => false
  }

  ghost predicate HasType(docs: Docs, inShared: bool, node: Node) {
    exists depth :: HasTypeIn(docs, inShared, node, depth)
  }

  lemma NullableShape(node: Node)
    ensures Nullable(node) <==> NullableInner(node).Some?
    ensures forall inner :: OrNull(node, inner) <==> NullableInner(node) == Some(inner)
  {
    assert node.OneOfN? && |node.branches| == 2 ==> node.branches == [node.branches[0], node.branches[1]];
    if NullableInner(node).Some? {
      assert OrNull(node, NullableInner(node).value);
    }
  }

  lemma ValidInteger(docs: Docs, o: Outside, inShared: bool, node: Node, n: int)
    requires node.IntegerN?
    ensures Valid(docs, Partial(o), inShared, node, Int(n), {}) <==> InRange(node.minimum, node.maximum, n)
  {
  }

  lemma RangeTaken(docs: Docs, inShared: bool, node: Node, top: Option<nat>)
    requires node.IntegerN?
    ensures
      TakesUpTo(docs, inShared, node, top) <==>
      node.minimum == Some(0) && (if top.None? then node.maximum.None? else node.maximum == Some(top.value))
  {
    var o := Outside({}, (_, _) => true, (_, _) => true);
    forall o: Outside, n: int
      ensures Valid(docs, Partial(o), inShared, node, Int(n), {}) <==> InRange(node.minimum, node.maximum, n)
    {
      ValidInteger(docs, o, inShared, node, n);
    }
    hide Valid;
    if TakesUpTo(docs, inShared, node, top) {
      forall n: int
        ensures InRange(node.minimum, node.maximum, n) <==> 0 <= n && (top.Some? ==> n <= top.value)
      {
        assert Valid(docs, Partial(o), inShared, node, Int(n), {}) <==> InRange(node.minimum, node.maximum, n);
      }
      RangeEnds(node.minimum, node.maximum, top);
    }
  }

  lemma RangeEnds(minimum: Option<int>, maximum: Option<int>, top: Option<nat>)
    requires forall n: int :: InRange(minimum, maximum, n) <==> 0 <= n && (top.Some? ==> n <= top.value)
    ensures minimum == Some(0) && (if top.None? then maximum.None? else maximum == Some(top.value))
  {
    assert !InRange(minimum, maximum, -1) && InRange(minimum, maximum, 0);
    if maximum.Some? {
      assert !InRange(minimum, maximum, maximum.value + 1);
    }
    if top.Some? {
      assert InRange(minimum, maximum, top.value) && !InRange(minimum, maximum, top.value + 1);
    }
  }

  // ---------------------------------------------------------------- what has a type is what lowers

  lemma {:induction false} Deeper(docs: Docs, inShared: bool, node: Node, depth: nat, more: nat)
    requires HasTypeIn(docs, inShared, node, depth) && depth <= more
    ensures HasTypeIn(docs, inShared, node, more)
    decreases depth, node
  {
    hide TakesUpTo;
    match node {
      case RefN(_, _, _) =>
        var def := DefOf(docs, Denoted(inShared, node));
        if Nullable(def) {
          Deeper(docs, inShared, def, depth - 1, more - 1);
        }
      case OneOfN(_, _) =>
        var inner :| inner < node && OrNull(node, inner) && HasTypeIn(docs, inShared, inner, depth);
        Deeper(docs, inShared, inner, depth, more);
      case ArrayN(items, _) =>
        if items.value != BYTE_NODE {
          Deeper(docs, inShared, items.value, depth, more);
        }
      case _ =>
    }
  }

  lemma {:induction false} LoweredHasType(docs: Docs, inShared: bool, node: Node, seen: set<DefId>)
    returns (depth: nat)
    requires LowerExpr(docs, inShared, node, seen).Some?
    ensures HasTypeIn(docs, inShared, node, depth)
    decreases AllDefs(docs) - seen, node
  {
    hide TakesUpTo, IsPascal, PascalCase, Nullable, OrNull, NullableInner;
    depth := 0;
    NullableShape(node);
    if node.RefN? {
      var d := Lookup(docs, inShared, node).value;
      NullableShape(DefOf(docs, d));
      if NullableInner(DefOf(docs, d)).Some? {
        var below := LoweredHasType(docs, inShared, DefOf(docs, d), seen + {d});
        depth := below + 1;
      }
    } else if NullableInner(node).Some? {
      depth := LoweredHasType(docs, inShared, NullableInner(node).value, seen);
      assert OrNull(node, NullableInner(node).value);
    } else if node.ArrayN? && node.items.value != BYTE_NODE {
      depth := LoweredHasType(docs, inShared, node.items.value, seen);
    } else if node.IntegerN? {
      RangeTaken(docs, inShared, node, None);
      RangeTaken(docs, inShared, node, Some(U64_MAX));
    } else if node.EnumN? {
      NameForms(node.typeName.value);
    }
  }

  /** No alias that was followed has a type at a smaller depth. */
  ghost predicate NoneShallower(docs: Docs, inShared: bool, seen: set<DefId>, depth: nat) {
    forall d <- seen, k | d in AllDefs(docs) && 0 <= k < depth :: !HasTypeIn(docs, inShared, DefOf(docs, d), k)
  }

  lemma {:induction false} Shallowest(docs: Docs, inShared: bool, node: Node, depth: nat) returns (least: nat)
    requires HasTypeIn(docs, inShared, node, depth)
    ensures least <= depth && HasTypeIn(docs, inShared, node, least)
    ensures forall k | 0 <= k < least :: !HasTypeIn(docs, inShared, node, k)
  {
    hide HasTypeIn;
    least := depth;
    if k :| 0 <= k < depth && HasTypeIn(docs, inShared, node, k) {
      least := Shallowest(docs, inShared, node, k);
    }
  }

  lemma {:induction false} TypedLowers(docs: Docs, inShared: bool, node: Node, seen: set<DefId>, depth: nat)
    requires HasTypeIn(docs, inShared, node, depth) && NoneShallower(docs, inShared, seen, depth)
    ensures LowerExpr(docs, inShared, node, seen).Some?
    decreases depth, node
  {
    hide TakesUpTo, IsPascal, PascalCase, Nullable, OrNull, NullableInner;
    NullableShape(node);
    match node {
      case RefN(_, _, _) =>
        var d := Denoted(inShared, node);
        NullableShape(DefOf(docs, d));
        if Nullable(DefOf(docs, d)) {
          assert d !in seen;
          var least := Shallowest(docs, inShared, DefOf(docs, d), depth - 1);
          TypedLowers(docs, inShared, DefOf(docs, d), seen + {d}, least);
        }
      case OneOfN(_, _) =>
        var inner :| inner < node && OrNull(node, inner) && HasTypeIn(docs, inShared, inner, depth);
        TypedLowers(docs, inShared, inner, seen, depth);
      case ArrayN(items, _) =>
        if items.value != BYTE_NODE {
          TypedLowers(docs, inShared, items.value, seen, depth);
        }
      case IntegerN(_, _, _) =>
        RangeTaken(docs, inShared, node, None);
        RangeTaken(docs, inShared, node, Some(U64_MAX));
      case EnumN(typeName, _, _) => NameForms(typeName.value);
      case _ =>
    }
  }

  /** A node lowers exactly when it has a type. */
  lemma ExprLowersIff(docs: Docs, inShared: bool, node: Node)
    ensures LowerExpr(docs, inShared, node, {}).Some? <==> HasType(docs, inShared, node)
  {
    if LowerExpr(docs, inShared, node, {}).Some? {
      var depth := LoweredHasType(docs, inShared, node, {});
    }
    if depth :| HasTypeIn(docs, inShared, node, depth) {
      TypedLowers(docs, inShared, node, {}, depth);
    }
  }

  // ---------------------------------------------------------------- definitions

  /** A closed object with properties, the required ones among them, all with wire names and types. */
  ghost predicate IsRecord(docs: Docs, inShared: bool, node: Node) {
    && node.ObjectN? && node.closed && |node.properties| > 0
    && (forall k <- node.required :: k in node.properties)
    && forall k <- node.properties :: SnakeCase(k) && HasType(docs, inShared, node.properties[k])
  }

  /** A variant: its tag alone, or a closed object that demands its tag and has nothing else. */
  ghost predicate IsVariant(docs: Docs, inShared: bool, branch: Node, tag: string) {
    PascalCase(tag) &&
    match branch
    case ConstN(value, _) => value == tag
    case ObjectN(properties, required, closed, typed, _) =>
      && typed && closed && required == {tag} && properties.Keys == {tag}
      && HasType(docs, inShared, properties[tag])
    case _ => false
  }

  ghost predicate IsUnion(docs: Docs, inShared: bool, branches: seq<Node>) {
    exists tags: seq<string> ::
      |tags| == |branches| > 1 && NoneTwice(tags) &&
      forall i | 0 <= i < |tags| :: IsVariant(docs, inShared, branches[i], tags[i])
  }

  /** The definition has a declaration of its own: an enum with values, a record, a union or a scalar. */
  ghost predicate Declares(docs: Docs, inShared: bool, node: Node) {
    match node
    case EnumN(_, values, _) => |values| > 0
    case ObjectN(_, _, _, typed, _) => typed && IsRecord(docs, inShared, node)
    case OneOfN(branches, _) => IsUnion(docs, inShared, branches)
    case StringN(_, _, _, _) => true
    case BooleanN(_) => true
    case IntegerN(_, _, _) => HasType(docs, inShared, node)
    case _ => false
  }

  lemma RecordLowersIff(docs: Docs, inShared: bool, node: Node)
    ensures LowerRecord(docs, inShared, node).Some? <==> IsRecord(docs, inShared, node)
  {
    hide LowerExpr, HasType, IsSnake, SnakeCase;
    forall child: Node ensures LowerExpr(docs, inShared, child, {}).Some? <==> HasType(docs, inShared, child) {
      ExprLowersIff(docs, inShared, child);
    }
    forall k: string ensures IsSnake(k) <==> SnakeCase(k) {
      NameForms(k);
    }
    assert node.ObjectN? ==> (node.properties == map[] <==> |node.properties| == 0);
  }

  lemma BranchLowersIff(docs: Docs, inShared: bool, branch: Node, tag: string)
    ensures IsVariant(docs, inShared, branch, tag) <==>
            LowerBranch(docs, inShared, branch).Some? && LowerBranch(docs, inShared, branch).value.tag == tag
  {
    NameForms(tag);
    if branch.ObjectN? && tag in branch.properties {
      ExprLowersIff(docs, inShared, branch.properties[tag]);
    }
    hide LowerExpr, HasType, IsPascal, PascalCase;
    if branch.ObjectN? && |branch.properties.Keys| == 1 {
      var k := OnlyKey(branch.properties);
      assert branch.properties.Keys == {k};
    }
  }

  lemma {:induction false} BranchesLower(docs: Docs, inShared: bool, branches: seq<Node>, tags: seq<string>)
    requires |tags| == |branches|
    requires forall i | 0 <= i < |tags| :: IsVariant(docs, inShared, branches[i], tags[i])
    ensures LowerBranches(docs, inShared, branches).Some?
    ensures forall i | 0 <= i < |tags| :: LowerBranches(docs, inShared, branches).value[i].tag == tags[i]
  {
    hide IsVariant, LowerBranch;
    if branches != [] {
      var n := |branches| - 1;
      BranchesLower(docs, inShared, branches[..n], tags[..n]);
      BranchLowersIff(docs, inShared, branches[n], tags[n]);
    }
  }

  lemma {:induction false} LoweredBranches(docs: Docs, inShared: bool, branches: seq<Node>)
    requires LowerBranches(docs, inShared, branches).Some?
    ensures forall i | 0 <= i < |branches| ::
              IsVariant(docs, inShared, branches[i], LowerBranches(docs, inShared, branches).value[i].tag)
  {
    hide IsVariant, LowerBranch;
    if branches != [] {
      var n := |branches| - 1;
      LoweredBranches(docs, inShared, branches[..n]);
      BranchLowersIff(docs, inShared, branches[n], LowerBranch(docs, inShared, branches[n]).value.tag);
    }
  }

  lemma UnionHasTags(docs: Docs, inShared: bool, branches: seq<Node>, variants: seq<Variant>)
    requires LowerBranches(docs, inShared, branches) == Some(variants) && |variants| >= 2 && DistinctTags(variants)
    ensures IsUnion(docs, inShared, branches)
  {
    LoweredBranches(docs, inShared, branches);
    hide IsVariant, LowerBranches;
    var tags := seq(|branches|, i requires 0 <= i < |branches| => variants[i].tag);
    assert NoneTwice(tags);
    assert forall i | 0 <= i < |tags| :: IsVariant(docs, inShared, branches[i], tags[i]);
  }

  lemma UnionLowersIff(docs: Docs, inShared: bool, branches: seq<Node>)
    ensures UnionOf(LowerBranches(docs, inShared, branches)).Some? <==> IsUnion(docs, inShared, branches)
  {
    hide IsVariant, LowerBranches, LowerBranch;
    var variants := LowerBranches(docs, inShared, branches);
    if UnionOf(variants).Some? {
      UnionHasTags(docs, inShared, branches, variants.value);
    }
    if IsUnion(docs, inShared, branches) {
      var tags: seq<string> :| |tags| == |branches| > 1 && NoneTwice(tags) &&
        forall i | 0 <= i < |tags| :: IsVariant(docs, inShared, branches[i], tags[i]);
      BranchesLower(docs, inShared, branches, tags);
    }
  }

  /** A definition lowers exactly when it declares something. */
  lemma DeclLowersIff(docs: Docs, inShared: bool, node: Node)
    ensures LowerDecl(docs, inShared, node).Some? <==> Declares(docs, inShared, node)
  {
    match node {
      case ObjectN(_, _, _, _, _) => RecordLowersIff(docs, inShared, node);
      case OneOfN(branches, _) => UnionLowersIff(docs, inShared, branches);
      case IntegerN(_, _, _) => ExprLowersIff(docs, inShared, node);
      case _ =>
    }
  }
}
