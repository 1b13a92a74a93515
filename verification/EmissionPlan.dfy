/** Which declarations a Python target emits: reachability from the unreferenced declarations,
    stopping at external types, with union payload records flattened away. */
module EmissionPlan {
  import opened Common
  import opened Documents
  import opened WireModel

  function Successors(d: Decl): set<string> {
    DeclRefs(d) + if d.Envelope? then {d.body} else {}
  }

  /** References resolve, and never to an envelope. */
  ghost predicate Resolved(types: Types) {
    forall n <- types ::
      && Successors(types[n]) <= types.Keys
      && forall r <- Successors(types[n]) :: !types[r].Envelope?
  }

  // ---------------------------------------------------------------- the worklist

  /** `names` holds the roots and everything its members name, external types apart. */
  ghost predicate Closed(types: Types, external: set<string>, roots: set<string>, names: set<string>) {
    && roots - external <= names
    && forall n | n in names && n in types :: Successors(types[n]) - external <= names
  }

  ghost predicate LeastClosed(types: Types, external: set<string>, roots: set<string>, names: set<string>) {
    && Closed(types, external, roots, names)
    && names !! external && names <= types.Keys
    && forall c :: Closed(types, external, roots, c) ==> names <= c
  }

  method PushAll(stack: seq<string>, names: set<string>) returns (r: seq<string>)
    ensures forall n :: n in r <==> n in stack || n in names
  {
    r := stack;
    var left := names;
    while left != {}
      invariant left <= names
      invariant forall n :: n in r <==> n in stack || n in names - left
      decreases left
    {
      var n :| n in left;
      r, left := r + [n], left - {n};
    }
  }

  /** The worklist visits each name at most once and ends with exactly the reachable declarations. */
  method Reach(types: Types, external: set<string>, roots: seq<string>)
    returns (reachable: set<string>, ghost visited: seq<string>)
    requires Resolved(types) && forall r <- roots :: r in types
    ensures LeastClosed(types, external, (set r | r in roots), reachable)
    ensures (forall i, j :: 0 <= i < j < |visited| ==> visited[i] != visited[j])
    ensures forall n :: n in visited <==> n in reachable
  {
    ghost var start := set r | r in roots;
    reachable, visited := {}, [];
    var stack := roots;
    while stack != []
      invariant forall n <- stack :: n in types
      invariant reachable !! external && reachable <= types.Keys
      invariant forall r <- start - external :: r in reachable || r in stack
      invariant forall n <- reachable, m <- Successors(types[n]) - external :: m in reachable || m in stack
      invariant forall c :: Closed(types, external, start, c) ==>
                  reachable <= c && forall n <- stack :: n in external || n in c
      invariant forall i, j :: 0 <= i < j < |visited| ==> visited[i] != visited[j]
      invariant forall n :: n in visited <==> n in reachable
      decreases types.Keys - reachable, |stack|
    {
      var name := stack[|stack| - 1];
      ghost var before := stack;
      stack := stack[..|stack| - 1];
      assert forall n :: n in before <==> n in stack || n == name;
      if name !in reachable && name !in external {
        reachable, visited := reachable + {name}, visited + [name];
        stack := PushAll(stack, Successors(types[name]));
      }
    }
  }

  // ---------------------------------------------------------------- the plan

  datatype Target = Target(external: set<string>, variantFields: map<(string, string), string>, envelopeOn: bool)
  datatype Planned = Planned(emitted: seq<string>, bodies: set<string>)

  /** A variant whose payload the target gives no field. */
  predicate Inlines(t: Target, n: string, v: Variant) {
    v.payload.Some? && (n, v.tag) !in t.variantFields
  }

  /** Variant payloads lowered by inlining the record's fields: those the target does not name a field for. */
  function Bodies(types: Types, t: Target): set<string> {
    set n, v | n in types && types[n].Union? && v in types[n].variants &&
               Inlines(t, n, v) && v.payload.value.Ref? :: v.payload.value.name
  }

  /** A unit variant has no field to name; a payload without a field is a plain record of the surface. */
  predicate VariantFits(types: Types, t: Target, n: string, v: Variant) {
    if v.payload.None? then (n, v.tag) !in t.variantFields
    else
      Inlines(t, n, v) ==>
        && v.payload.value.Ref? && v.payload.value.name !in t.external
        && v.payload.value.name in types && types[v.payload.value.name].Record?
  }

  /** The target fits the surface: known names, a field for every payload that is not a plain record,
      and no flattened record used as a field type. */
  predicate Allowed(types: Types, t: Target) {
    && t.external <= types.Keys
    && (forall k <- t.variantFields :: k.0 in types)
    && (forall n | n in types && types[n].Union? :: forall v <- types[n].variants :: VariantFits(types, t, n, v))
    && (forall n | n in types && !types[n].Union? :: DeclRefs(types[n]) !! Bodies(types, t))
  }

  /** The bodies one union adds, or a refusal. */
  method UnionBodies(types: Types, t: Target, n: string) returns (bodies: Option<set<string>>)
    requires n in types && types[n].Union?
    ensures bodies.Some? <==> forall v <- types[n].variants :: VariantFits(types, t, n, v)
    ensures bodies.Some? ==>
              bodies.value == set v | v in types[n].variants && Inlines(t, n, v) && v.payload.value.Ref? ::
                v.payload.value.name
  {
    var variants, found: set<string> := types[n].variants, {};
    for i := 0 to |variants|
      invariant forall v <- variants[..i] :: VariantFits(types, t, n, v)
      invariant found == set v | v in variants[..i] && Inlines(t, n, v) && v.payload.value.Ref? :: v.payload.value.name
    {
      var v := variants[i];
      assert forall u :: u in variants[..i + 1] <==> u in variants[..i] || u == v;
      if v.payload.None? {
        if (n, v.tag) in t.variantFields {
          assert v in variants && !VariantFits(types, t, n, v);
          return None;
        }
      } else if (n, v.tag) !in t.variantFields {
        var e := v.payload.value;
        if !e.Ref? || e.name in t.external || e.name !in types || !types[e.name].Record? {
          assert v in variants && !VariantFits(types, t, n, v);
          return None;
        }
        found := found + {e.name};
      }
    }
    assert variants[..|variants|] == variants;
    return Some(found);
  }

  /** The flattened bodies of a target that fits, declaration by declaration. */
  method FlattenedBodies(types: Types, t: Target, order: seq<string>) returns (bodies: Option<set<string>>)
    requires forall n :: n in order <==> n in types
    ensures bodies == if Allowed(types, t) then Some(Bodies(types, t)) else None
  {
    if !(t.external <= types.Keys) || exists k <- t.variantFields :: k.0 !in types {
      return None;
    }
    var found: set<string> := {};
    for i := 0 to |order|
      invariant forall n | n in order[..i] && types[n].Union? ::
                  forall v <- types[n].variants :: VariantFits(types, t, n, v)
      invariant found == set n, v | n in order[..i] && types[n].Union? && v in types[n].variants &&
                                    Inlines(t, n, v) && v.payload.value.Ref? :: v.payload.value.name
    {
      var n := order[i];
      assert forall m :: m in order[..i + 1] <==> m in order[..i] || m == n;
      if types[n].Union? {
        var more := UnionBodies(types, t, n);
        if more.None? {
          return None;
        }
        found := found + more.value;
      }
    }
    assert order[..|order|] == order && found == Bodies(types, t);
    for i := 0 to |order|
      invariant forall n | n in order[..i] && !types[n].Union? :: DeclRefs(types[n]) !! found
    {
      assert forall m :: m in order[..i + 1] <==> m in order[..i] || m == order[i];
      if !types[order[i]].Union? && DeclRefs(types[order[i]]) * found != {} {
        return None;
      }
    }
    return Some(found);
  }

  predicate PlainStrings(e: TypeExpr) {
    match e
    case StringT(_, maxLength, pattern) => maxLength.None? && pattern.None?
    case ListT(element) => PlainStrings(element)
    case NullableT(inner) => PlainStrings(inner)
    case _ => true
  }

  predicate Lowerable(types: Types, names: set<string>) {
    forall n | n in names && n in types :: forall e <- Exprs(types[n]) :: PlainStrings(e)
  }

  /** The expression with its strings limited from below only, as generated code checks them. */
  function Loosened(e: TypeExpr): TypeExpr {
    match e
    case StringT(minLength, _, _) => StringT(minLength, None, None)
    case ListT(element) => ListT(Loosened(element))
    case NullableT(inner) => NullableT(Loosened(inner))
    case _ => e
  }

  /** Whatever patterns match, upper limits and patterns make no difference. */
  ghost predicate Unlimited(e: TypeExpr) {
    forall o: Outside, v: Json :: Accepts(map[], o, e, v) <==> Accepts(map[], o, Loosened(e), v)
  }

  lemma {:induction false} PlainIsLoose(e: TypeExpr)
    requires PlainStrings(e)
    ensures Loosened(e) == e
  {
    match e {
      case ListT(element) => PlainIsLoose(element);
      case NullableT(inner) => PlainIsLoose(inner);
      case _ =>
    }
  }

  /** A value that only the loosened expression takes. */
  lemma {:induction false} LimitedRefuses(e: TypeExpr) returns (o: Outside, v: Json)
    requires !PlainStrings(e)
    ensures !Accepts(map[], o, e, v) && Accepts(map[], o, Loosened(e), v) && !v.Null?
  {
    match e {
      case StringT(minLength, maxLength, pattern) =>
        var least := if minLength.Some? then minLength.value else 0;
        var most := if maxLength.Some? then maxLength.value else 0;
        o := Outside({}, (_, _) => false, (_, _) => false);
        v := Str(seq(least + most + 1, _ => 'a'));
      case ListT(element) =>
        var item;
        o, item := LimitedRefuses(element);
        v := Arr([item]);
        assert v.items[0] == item;
      case NullableT(inner) => o, v := LimitedRefuses(inner);
      case _ => o, v := Outside({}, (_, _) => false, (_, _) => false), Null;
    }
  }

  lemma PlainIffUnlimited(e: TypeExpr)
    ensures PlainStrings(e) <==> Unlimited(e)
  {
    if PlainStrings(e) {
      PlainIsLoose(e);
    } else {
      var o, v := LimitedRefuses(e);
    }
  }

  predicate IsEmitted(types: Types, t: Target, reachable: set<string>, n: string) {
    n in types && n in reachable && n !in Bodies(types, t) && !(types[n].Envelope? && !t.envelopeOn)
  }

  function Filtered(types: Types, t: Target, reachable: set<string>, order: seq<string>): (r: seq<string>)
    ensures forall n :: n in r <==> n in order && IsEmitted(types, t, reachable, n)
  {
    if order == [] then []
    else
      var last := order[|order| - 1];
      Filtered(types, t, reachable, order[..|order| - 1]) + if IsEmitted(types, t, reachable, last) then [last] else []
  }

  ghost predicate InTurn(order: seq<string>, first: string, second: string) {
    exists a, b | 0 <= a < b < |order| :: order[a] == first && order[b] == second
  }

  /** Any two of the picked stand, in the same order, at two positions of the list they were picked from. */
  ghost predicate KeepsOrder(picked: seq<string>, order: seq<string>) {
    forall i, j | 0 <= i < j < |picked| :: InTurn(order, picked[i], picked[j])
  }

  lemma OneMoreInTurn(order: seq<string>, first: string, second: string)
    requires order != []
    ensures
      var init, last := order[..|order| - 1], order[|order| - 1];
      InTurn(init, first, second) || (first in init && second == last) ==> InTurn(order, first, second)
  {
    var init, last := order[..|order| - 1], order[|order| - 1];
    if InTurn(init, first, second) {
      var a, b :| 0 <= a < b < |init| && init[a] == first && init[b] == second;
      assert order[a] == first && order[b] == second;
    } else if first in init && second == last {
      var a :| 0 <= a < |init| && init[a] == first;
      assert order[a] == first && order[|order| - 1] == second;
    }
  }

  /** What is emitted keeps the model's order. */
  lemma {:induction false} FilteredInOrder(types: Types, t: Target, reachable: set<string>, order: seq<string>)
    ensures KeepsOrder(Filtered(types, t, reachable, order), order)
  {
    hide IsEmitted, InTurn;
    if order != [] {
      var init := order[..|order| - 1];
      FilteredInOrder(types, t, reachable, init);
      var before, picked := Filtered(types, t, reachable, init), Filtered(types, t, reachable, order);
      assert forall n <- before :: n in init;
      forall i, j | 0 <= i < j < |picked| ensures InTurn(order, picked[i], picked[j]) {
        assert before[i] in before && picked[i] == before[i];
        OneMoreInTurn(order, picked[i], picked[j]);
      }
    }
  }

  lemma OrderKeepsApart(picked: seq<string>, order: seq<string>)
    requires KeepsOrder(picked, order) && NoneTwice(order)
    ensures NoneTwice(picked)
  {
    forall i, j | 0 <= i < j < |picked| ensures picked[i] != picked[j] {
      assert InTurn(order, picked[i], picked[j]);
    }
  }

  function Referenced(types: Types): set<string> {
    set n, r | n in types && r in Successors(types[n]) :: r
  }

  /** A declaration something refers to is no root; an envelope that is not emitted hands over to its body. */
  function RootOf(types: Types, t: Target, n: string): seq<string>
    requires n in types
  {
    if n in Referenced(types) then []
    else if types[n].Envelope? && !t.envelopeOn then [types[n].body]
    else [n]
  }

  function Roots(types: Types, t: Target, order: seq<string>): (r: seq<string>)
    requires forall n <- order :: n in types
    ensures Resolved(types) ==> forall n <- r :: n in types
  {
    if order == [] then []
    else Roots(types, t, order[..|order| - 1]) + RootOf(types, t, order[|order| - 1])
  }

  function RootSet(types: Types, t: Target, order: seq<string>): set<string>
    requires forall n <- order :: n in types
  {
    set r | r in Roots(types, t, order)
  }

  predicate ScalarsNamed(types: Types, names: seq<string>) {
    forall n <- names :: n in types && types[n].Alias? ==> IsScalar(types[n].target)
  }

  function NameSet(names: seq<string>): set<string> {
    set n | n in names
  }

  lemma LeastClosedIsUnique(types: Types, external: set<string>, roots: set<string>, a: set<string>, b: set<string>)
    requires LeastClosed(types, external, roots, a) && LeastClosed(types, external, roots, b)
    ensures a == b
  {
  }

  // ---------------------------------------------------------------- what belongs in a plan

  /** One declaration names another: in a field, a payload, as an alias's target or an envelope's body. */
  ghost predicate RefersTo(types: Types, n: string, m: string) {
    n in types &&
    match types[n]
    case Alias(target) => m in Refs(target)
    case Enum(_) => false
    case Record(fields) => exists k | k in fields :: m in Refs(fields[k].ty)
    case Union(variants) => exists v <- variants :: v.payload.Some? && m in Refs(v.payload.value)
    case Envelope(_, body) => m == body
  }

  ghost predicate Unnamed(types: Types, n: string) {
    n in types && forall m <- types :: !RefersTo(types, m, n)
  }

  /** A declaration that nothing names, or the body of such an envelope where the envelope is not wanted. */
  ghost predicate Start(types: Types, t: Target, n: string) {
    exists m | Unnamed(types, m) :: n == if types[m].Envelope? && !t.envelopeOn then types[m].body else m
  }

  /** Each name after the first is one the one before it refers to, and none is written by hand. */
  ghost predicate Chain(types: Types, t: Target, path: seq<string>) {
    && path != [] && Start(types, t, path[0])
    && (forall i | 0 <= i < |path| :: path[i] !in t.external)
    && forall i | 0 <= i < |path| - 1 :: RefersTo(types, path[i], path[i + 1])
  }

  ghost predicate ChainEnds(types: Types, t: Target, n: string) {
    exists path :: Chain(types, t, path) && path[|path| - 1] == n
  }

  /** A record that some variant is written out as: the target names no field to hold it in one piece. */
  ghost predicate WrittenOut(types: Types, t: Target, n: string) {
    exists u, v | u in types && types[u].Union? && v in types[u].variants ::
      v.payload == Some(Ref(n)) && (u, v.tag) !in t.variantFields
  }

  ghost predicate Belongs(types: Types, t: Target, n: string) {
    n in types && ChainEnds(types, t, n) && !WrittenOut(types, t, n) && (types[n].Envelope? ==> t.envelopeOn)
  }

  lemma RefersExact(types: Types, n: string, m: string)
    requires n in types
    ensures RefersTo(types, n, m) <==> m in Successors(types[n])
  {
    match types[n] {
      case Record(fields) =>
        if k :| k in fields && m in Refs(fields[k].ty) {
          assert fields[k].ty in Exprs(types[n]);
        }
      case Union(variants) =>
        if v :| v in variants && v.payload.Some? && m in Refs(v.payload.value) {
          assert v.payload.value in Exprs(types[n]);
        }
      case Alias(target) => assert Exprs(types[n]) == {target};
      case _ =>
    }
  }

  lemma UnnamedExact(types: Types, n: string)
    ensures Unnamed(types, n) <==> n in types && n !in Referenced(types)
  {
    hide RefersTo, Successors;
    forall m <- types ensures RefersTo(types, m, n) <==> n in Successors(types[m]) {
      RefersExact(types, m, n);
    }
  }

  lemma {:induction false} RootsExact(types: Types, t: Target, order: seq<string>, r: string)
    requires forall n <- order :: n in types
    ensures r in Roots(types, t, order) <==> exists n <- order :: r in RootOf(types, t, n)
  {
    hide RootOf;
    if order != [] {
      RootsExact(types, t, order[..|order| - 1], r);
      assert forall n :: n in order <==> n in order[..|order| - 1] || n == order[|order| - 1];
    }
  }

  lemma StartExact(types: Types, t: Target, order: seq<string>, r: string)
    requires forall n :: n in order <==> n in types
    ensures Start(types, t, r) <==> r in RootSet(types, t, order)
  {
    hide Referenced, Unnamed;
    RootsExact(types, t, order, r);
    forall n ensures Unnamed(types, n) <==> n in types && n !in Referenced(types) {
      UnnamedExact(types, n);
    }
    if Start(types, t, r) {
      var m :| Unnamed(types, m) && r == if types[m].Envelope? && !t.envelopeOn then types[m].body else m;
      assert r in RootOf(types, t, m);
    }
  }

  lemma {:induction false} ChainIsReached(types: Types, t: Target, order: seq<string>, names: set<string>,
                                         path: seq<string>)
    requires forall n :: n in order <==> n in types
    requires LeastClosed(types, t.external, RootSet(types, t, order), names) && Chain(types, t, path)
    ensures path[|path| - 1] in names
  {
    hide Start, RefersTo, Successors, RootSet;
    var n := path[|path| - 1];
    if |path| == 1 {
      StartExact(types, t, order, n);
    } else {
      var front := path[..|path| - 1];
      ChainIsReached(types, t, order, names, front);
      assert RefersTo(types, path[|path| - 2], path[|path| - 1]);
      RefersExact(types, path[|path| - 2], n);
    }
  }

  lemma LongerChain(types: Types, t: Target, n: string, m: string)
    requires ChainEnds(types, t, n) && RefersTo(types, n, m) && m !in t.external
    ensures ChainEnds(types, t, m)
  {
    hide Start, RefersTo;
    var path :| Chain(types, t, path) && path[|path| - 1] == n;
    var longer := path + [m];
    assert forall i | 0 <= i < |path| :: longer[i] == path[i];
    assert Chain(types, t, longer);
  }

  lemma ChainsAreClosed(types: Types, t: Target, order: seq<string>, ends: set<string>)
    requires (forall n :: n in order <==> n in types) && forall n :: n in ends <==> n in types && ChainEnds(types, t, n)
    requires Resolved(types)
    ensures Closed(types, t.external, RootSet(types, t, order), ends)
  {
    hide Start, RefersTo, Successors, ChainEnds, RootOf;
    forall r | r in RootSet(types, t, order) - t.external ensures r in ends {
      StartExact(types, t, order, r);
      StartEnds(types, t, r);
    }
    forall n, m | n in ends && m in Successors(types[n]) - t.external ensures m in ends {
      RefersExact(types, n, m);
      LongerChain(types, t, n, m);
    }
  }

  lemma StartEnds(types: Types, t: Target, n: string)
    requires Start(types, t, n) && n !in t.external
    ensures ChainEnds(types, t, n)
  {
    assert Chain(types, t, [n]);
  }

  /** Reached is what a chain of references leads to. */
  lemma ReachedExact(types: Types, t: Target, order: seq<string>, reachable: set<string>, n: string)
    requires Resolved(types) && forall n :: n in order <==> n in types
    requires LeastClosed(types, t.external, RootSet(types, t, order), reachable)
    ensures n in reachable <==> n in types && ChainEnds(types, t, n)
  {
    hide RootSet, Closed, Resolved, Start, RefersTo;
    ghost var ends := set m | m in types && ChainEnds(types, t, m);
    ChainsAreClosed(types, t, order, ends);
    assert reachable <= ends;
    if path :| Chain(types, t, path) && path[|path| - 1] == n {
      ChainIsReached(types, t, order, reachable, path);
    }
  }

  lemma WrittenOutExact(types: Types, t: Target, n: string)
    ensures WrittenOut(types, t, n) <==> n in Bodies(types, t)
  {
    if n in Bodies(types, t) {
      var u, v :| u in types && types[u].Union? && v in types[u].variants && Inlines(t, u, v) && v.payload.value.Ref? &&
        v.payload.value.name == n;
      assert v.payload == Some(Ref(n));
    }
  }

  lemma BelongsExact(types: Types, t: Target, order: seq<string>, reachable: set<string>, n: string)
    requires Resolved(types) && forall n :: n in order <==> n in types
    requires LeastClosed(types, t.external, RootSet(types, t, order), reachable)
    ensures IsEmitted(types, t, reachable, n) <==> Belongs(types, t, n)
  {
    hide LeastClosed, ChainEnds, WrittenOut, Bodies;
    ReachedExact(types, t, order, reachable, n);
    WrittenOutExact(types, t, n);
  }

  /** A unit variant with a field, or a payload that has none and is no record of the surface's own. */
  ghost predicate BadVariant(types: Types, t: Target, u: string, v: Variant) {
    if v.payload.None? then (u, v.tag) in t.variantFields
    else
      && (u, v.tag) !in t.variantFields
      && !exists n <- types :: v.payload == Some(Ref(n)) && types[n].Record? && n !in t.external
  }

  /** The target names what the surface does not have, cannot hold a variant, or writes out a record that a
      declaration other than a union refers to. */
  ghost predicate Misfit(types: Types, t: Target) {
    || (exists n <- t.external :: n !in types)
    || (exists k <- t.variantFields :: k.0 !in types)
    || (exists u, v | u in types && types[u].Union? && v in types[u].variants :: BadVariant(types, t, u, v))
    || exists n, b | n in types && !types[n].Union? && !types[n].Envelope? && RefersTo(types, n, b) ::
         WrittenOut(types, t, b)
  }

  lemma VariantFitsExact(types: Types, t: Target, u: string, v: Variant)
    ensures VariantFits(types, t, u, v) <==> !BadVariant(types, t, u, v)
  {
    if v.payload.Some? && v.payload.value.Ref? {
      assert v.payload == Some(Ref(v.payload.value.name));
    }
  }

  lemma AllowedExact(types: Types, t: Target)
    ensures Allowed(types, t) <==> !Misfit(types, t)
  {
    forall u, v | u in types && types[u].Union? && v in types[u].variants
      ensures VariantFits(types, t, u, v) <==> !BadVariant(types, t, u, v)
    {
      VariantFitsExact(types, t, u, v);
    }
    forall n, b | n in types && !types[n].Union? && !types[n].Envelope?
      ensures RefersTo(types, n, b) <==> b in DeclRefs(types[n])
    {
      RefersExact(types, n, b);
    }
    forall b ensures WrittenOut(types, t, b) <==> b in Bodies(types, t) {
      WrittenOutExact(types, t, b);
    }
    hide VariantFits, BadVariant, WrittenOut, Bodies, RefersTo;
    assert forall n <- types :: types[n].Envelope? ==> DeclRefs(types[n]) == {};
    hide DeclRefs;
    if !Allowed(types, t) && t.external <= types.Keys {
      if n :| n in types && !types[n].Union? && !(DeclRefs(types[n]) !! Bodies(types, t)) {
        var b :| b in DeclRefs(types[n]) && b in Bodies(types, t);
        assert RefersTo(types, n, b) && WrittenOut(types, t, b);
      }
    }
  }

  /** Some string of the declaration is limited from above or patterned. */
  ghost predicate Limited(d: Decl) {
    exists e <- Exprs(d) :: !Unlimited(e)
  }

  ghost predicate NamesNoScalar(d: Decl) {
    d.Alias? && !IsScalar(d.target)
  }

  /** The three reasons for a refusal. */
  ghost predicate Refused(types: Types, t: Target) {
    || Misfit(types, t)
    || (exists n | n in types && (Belongs(types, t, n) || WrittenOut(types, t, n)) :: Limited(types[n]))
    || exists n | n in types && Belongs(types, t, n) :: NamesNoScalar(types[n])
  }

  lemma LowerableExact(types: Types, names: set<string>)
    ensures Lowerable(types, names) <==> !exists n <- names :: n in types && Limited(types[n])
  {
    forall e ensures PlainStrings(e) <==> Unlimited(e) {
      PlainIffUnlimited(e);
    }
    hide PlainStrings, Unlimited, Exprs;
  }

  lemma ScalarsExact(types: Types, names: seq<string>)
    ensures ScalarsNamed(types, names) <==> !exists n <- names :: n in types && NamesNoScalar(types[n])
  {
  }

  lemma PlannedExact(types: Types, t: Target, order: seq<string>, reachable: set<string>)
    requires Resolved(types) && forall n :: n in order <==> n in types
    requires LeastClosed(types, t.external, RootSet(types, t, order), reachable)
    ensures forall n :: n in Filtered(types, t, reachable, order) <==> n in types && Belongs(types, t, n)
    ensures forall n :: n in Bodies(types, t) <==> WrittenOut(types, t, n)
  {
    hide LeastClosed, RootSet, Bodies, WrittenOut, Resolved, ChainEnds;
    forall n ensures n in Filtered(types, t, reachable, order) <==> Belongs(types, t, n) {
      BelongsExact(types, t, order, reachable, n);
    }
    forall n ensures n in Bodies(types, t) <==> WrittenOut(types, t, n) {
      WrittenOutExact(types, t, n);
    }
  }

  lemma RefusedExact(types: Types, t: Target, emitted: seq<string>)
    requires forall n :: n in emitted <==> n in types && Belongs(types, t, n)
    requires forall n :: n in Bodies(types, t) <==> WrittenOut(types, t, n)
    ensures
      var planned := NameSet(emitted) + Bodies(types, t);
      Refused(types, t) <==> !(Allowed(types, t) && Lowerable(types, planned) && ScalarsNamed(types, emitted))
  {
    AllowedExact(types, t);
    LowerableExact(types, NameSet(emitted) + Bodies(types, t));
    ScalarsExact(types, emitted);
    hide Allowed, Misfit, Belongs, WrittenOut, Lowerable, ScalarsNamed, Bodies, Limited, NamesNoScalar;
    assert forall n :: n in NameSet(emitted) <==> n in emitted;
  }

  /** The plan, or a refusal for exactly one of three reasons: the target does not fit the surface, a
      lowered string is limited or patterned, or an emitted alias names no scalar. */
  method PyPlan(types: Types, t: Target, order: seq<string>) returns (plan: Option<Planned>)
    requires Resolved(types) && (forall n :: n in order <==> n in types)
    ensures Allowed(types, t) ==>
              exists reachable :: LeastClosed(types, t.external, RootSet(types, t, order), reachable)
    ensures forall reachable | LeastClosed(types, t.external, RootSet(types, t, order), reachable) ::
              var emitted, bodies := Filtered(types, t, reachable, order), Bodies(types, t);
              var lowers := Lowerable(types, NameSet(emitted) + bodies) && ScalarsNamed(types, emitted);
              plan == if Allowed(types, t) && lowers then Some(Planned(emitted, bodies)) else None
    ensures plan.None? <==> Refused(types, t)
    ensures plan.Some? ==>
              && (forall n :: n in plan.value.emitted <==> n in types && Belongs(types, t, n))
              && (forall n :: n in plan.value.bodies <==> WrittenOut(types, t, n))
              && KeepsOrder(plan.value.emitted, order) && (NoneTwice(order) ==> NoneTwice(plan.value.emitted))
  {
    AllowedExact(types, t);
    hide LeastClosed, Allowed, Bodies, Lowerable, ScalarsNamed, IsEmitted, Misfit, Belongs, WrittenOut, Limited;
    var bodies := FlattenedBodies(types, t, order);
    if bodies.None? {
      return None;
    }
    var reached, _ := Reach(types, t.external, Roots(types, t, order));
    assert LeastClosed(types, t.external, RootSet(types, t, order), reached);
    forall reachable | LeastClosed(types, t.external, RootSet(types, t, order), reachable)
      ensures reachable == reached
    {
      LeastClosedIsUnique(types, t.external, RootSet(types, t, order), reachable, reached);
    }
    var emitted := Filtered(types, t, reached, order);
    PlannedExact(types, t, order, reached);
    RefusedExact(types, t, emitted);
    FilteredInOrder(types, t, reached, order);
    if NoneTwice(order) {
      OrderKeepsApart(emitted, order);
    }
    if !Lowerable(types, NameSet(emitted) + bodies.value) || !ScalarsNamed(types, emitted) {
      return None;
    }
    return Some(Planned(emitted, bodies.value));
  }
}
