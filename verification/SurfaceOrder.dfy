/** The order of a model's types: local definitions as the document lists them, the envelope, shared definitions as
    they are first named, and each inline enum before the type that first names it. */
module SurfaceOrder {
  import opened Common
  import opened WireModel
  import opened SurfaceSchema
  import opened SurfaceLowering
  import opened SurfaceOutcome

  /** Every type a declaration names, an envelope its body. */
  function NamedIn(decl: Decl): set<string> {
    DeclRefs(decl) + if decl.Envelope? then {decl.body} else {}
  }

  /** The names of the types that are no inline enums, in order. */
  function Skeleton(docs: Docs, root: Root, types: seq<Named>): seq<string> {
    if types == [] then []
    else
      var front, n := Skeleton(docs, root, types[..|types| - 1]), types[|types| - 1].name;
      if n in EnumNames(docs, root) then front else front + [n]
  }

  /** The local definitions that have types of their own, in document order. */
  ghost function Locals(docs: Docs, order: seq<string>): seq<string> {
    if order == [] then []
    else
      var front, n := Locals(docs, order[..|order| - 1]), order[|order| - 1];
      if n in docs.local && !Nullable(docs.local[n]) then front + [n] else front
  }

  /** The envelope, behind its own record if it has one. */
  function RootNames(root: Root): seq<string> {
    if !root.EnvelopeRoot? then []
    else if |root.properties| == 1 && !root.properties[0].1.RefN? then [root.properties[0].0, root.name]
    else [root.name]
  }

  /** Whatever names the later name comes no earlier than one that names the earlier. */
  predicate FirstNamedInTurn(types: seq<Named>, names: seq<string>) {
    forall k, l, b | 0 <= k < l < |names| && 0 <= b < |types| && names[l] in NamedIn(types[b].decl) ::
      exists a | 0 <= a <= b :: names[k] in NamedIn(types[a].decl)
  }

  /** An inline enum stands in front of the first type that names it, with nothing but enums between. */
  predicate EnumInPlace(docs: Docs, root: Root, types: seq<Named>, i: nat)
    requires i < |types|
  {
    && (forall k | 0 <= k <= i :: types[i].name !in NamedIn(types[k].decl))
    && exists j | i < j < |types| ::
         && types[i].name in NamedIn(types[j].decl)
         && forall k | i < k < j :: types[k].name in EnumNames(docs, root)
  }

  predicate EnumsInPlace(docs: Docs, root: Root, types: seq<Named>) {
    forall i | 0 <= i < |types| && types[i].name in EnumNames(docs, root) :: EnumInPlace(docs, root, types, i)
  }

  /** The order of a finished model's types: their skeleton, the shared ones among them as they are first named, and
      the inline enums. */
  ghost predicate InModelOrder(docs: Docs, root: Root, order: seq<string>, types: seq<Named>) {
    exists shared: seq<string> ::
      && (forall n <- shared :: OnlyShared(docs, n)) && NoneTwice(shared)
      && Skeleton(docs, root, types) == Locals(docs, order) + RootNames(root) + shared
      && FirstNamedInTurn(types, shared) && EnumsInPlace(docs, root, types)
  }

  // ---------------------------------------------------------------- one more block of types

  /** All shared names are in the queue, and for a reason. */
  ghost predicate QueueCovers(docs: Docs, types: seq<Named>, queue: seq<string>) {
    && (forall t <- types, n <- NamedIn(t.decl) | OnlyShared(docs, n) :: n in queue)
    && (forall n <- queue :: OnlyShared(docs, n) && exists t <- types :: n in NamedIn(t.decl))
  }

  /** No type names an inline enum that has no type yet. */
  predicate EnumsKnown(docs: Docs, root: Root, types: seq<Named>) {
    forall t <- types, n <- NamedIn(t.decl) | n in EnumNames(docs, root) :: n in Names(types)
  }

  ghost predicate Ordered(docs: Docs, root: Root, types: seq<Named>, queue: seq<string>) {
    && FirstNamedInTurn(types, queue) && EnumsInPlace(docs, root, types)
    && QueueCovers(docs, types, queue) && EnumsKnown(docs, root, types)
  }

  /** A type comes with the inline enums it is the first to name in front of it, and queues what it names. */
  ghost predicate Block(docs: Docs, root: Root, types0: seq<Named>, queue0: seq<string>, types1: seq<Named>,
                        queue1: seq<string>) {
    && |types0| < |types1| && types0 <= types1 && queue0 <= queue1
    && var last := types1[|types1| - 1];
       && last.name !in EnumNames(docs, root)
       && (forall i | |types0| <= i < |types1| - 1 ::
             && types1[i].name in EnumNames(docs, root) && types1[i].name !in Names(types0)
             && NamedIn(types1[i].decl) == {} && types1[i].name in NamedIn(last.decl))
       && (forall n <- queue1 :: n in queue0 || n in NamedIn(last.decl))
  }

  lemma {:induction false} SkeletonGrows(docs: Docs, root: Root, types0: seq<Named>, types1: seq<Named>)
    requires |types0| < |types1| && types0 <= types1
    requires types1[|types1| - 1].name !in EnumNames(docs, root)
    requires forall i | |types0| <= i < |types1| - 1 :: types1[i].name in EnumNames(docs, root)
    ensures Skeleton(docs, root, types1) == Skeleton(docs, root, types0) + [types1[|types1| - 1].name]
  {
    hide EnumNames;
    EnumsSkipped(docs, root, types0, types1[..|types1| - 1]);
  }

  lemma {:induction false} EnumsSkipped(docs: Docs, root: Root, types0: seq<Named>, types1: seq<Named>)
    requires types0 <= types1
    requires forall i | |types0| <= i < |types1| :: types1[i].name in EnumNames(docs, root)
    ensures Skeleton(docs, root, types1) == Skeleton(docs, root, types0)
  {
    hide EnumNames;
    if |types0| == |types1| {
      assert types0 == types1;
    } else {
      EnumsSkipped(docs, root, types0, types1[..|types1| - 1]);
    }
  }

  lemma {:induction false} SkeletonMember(docs: Docs, root: Root, types: seq<Named>, n: string)
    requires n in Names(types) && n !in EnumNames(docs, root)
    ensures n in Skeleton(docs, root, types)
  {
    hide EnumNames;
    var last := types[|types| - 1];
    if n != last.name {
      var front := types[..|types| - 1];
      assert types == front + [last];
      SkeletonMember(docs, root, front, n);
    }
  }

  lemma TurnsKept(docs: Docs, root: Root, types0: seq<Named>, queue0: seq<string>, types1: seq<Named>,
                  queue1: seq<string>)
    requires Ordered(docs, root, types0, queue0) && Block(docs, root, types0, queue0, types1, queue1)
    requires NoneTwice(queue1) && forall n <- queue1 :: OnlyShared(docs, n)
    ensures FirstNamedInTurn(types1, queue1)
  {
    hide EnumNames, NamedIn, Names, EnumsInPlace, EnumsKnown;
    var last := |types1| - 1;
    forall k, l, b | 0 <= k < l < |queue1| && 0 <= b < |types1| && queue1[l] in NamedIn(types1[b].decl)
      ensures exists a | 0 <= a <= b :: queue1[k] in NamedIn(types1[a].decl)
    {
      if b < |types0| {
        assert types1[b] in types0 && queue1[l] in queue0;
        var m :| 0 <= m < |queue0| && queue0[m] == queue1[l];
        assert queue1[m] == queue1[l];
        assert queue0[k] == queue1[k];
        var a :| 0 <= a <= b && queue0[k] in NamedIn(types0[a].decl);
        assert types1[a] == types0[a];
      } else {
        assert b == last;
        if queue1[k] in queue0 {
          var t :| t in types0 && queue1[k] in NamedIn(t.decl);
          var a :| 0 <= a < |types0| && types0[a] == t;
          assert types1[a] == t;
        }
      }
    }
  }

  lemma EnumStays(docs: Docs, root: Root, types0: seq<Named>, types1: seq<Named>, i: nat)
    requires types0 <= types1 && i < |types0| && EnumInPlace(docs, root, types0, i)
    ensures EnumInPlace(docs, root, types1, i)
  {
    hide EnumNames, NamedIn;
    var j :| i < j < |types0| && types0[i].name in NamedIn(types0[j].decl)
      && forall k | i < k < j :: types0[k].name in EnumNames(docs, root);
    assert types1[j] == types0[j];
    assert forall k | 0 <= k <= j :: types1[k] == types0[k];
  }

  lemma EnumsPlaced(docs: Docs, root: Root, types0: seq<Named>, queue0: seq<string>, types1: seq<Named>,
                    queue1: seq<string>)
    requires Ordered(docs, root, types0, queue0) && Block(docs, root, types0, queue0, types1, queue1)
    ensures EnumsInPlace(docs, root, types1)
  {
    hide EnumNames, NamedIn, Names, FirstNamedInTurn, QueueCovers, EnumInPlace;
    forall i | 0 <= i < |types1| && types1[i].name in EnumNames(docs, root) ensures EnumInPlace(docs, root, types1, i) {
      if i < |types0| {
        assert types0[i] == types1[i];
        EnumStays(docs, root, types0, types1, i);
      } else {
        EnumArrives(docs, root, types0, queue0, types1, queue1, i);
      }
    }
  }

  lemma EnumArrives(docs: Docs, root: Root, types0: seq<Named>, queue0: seq<string>, types1: seq<Named>,
                    queue1: seq<string>, i: nat)
    requires EnumsKnown(docs, root, types0) && Block(docs, root, types0, queue0, types1, queue1)
    requires |types0| <= i < |types1| && types1[i].name in EnumNames(docs, root)
    ensures EnumInPlace(docs, root, types1, i)
  {
    hide EnumNames, NamedIn, Names;
    forall k | 0 <= k <= i ensures types1[i].name !in NamedIn(types1[k].decl) {
      if k < |types0| {
        assert types1[k] in types0;
      }
    }
    assert types1[i].name in NamedIn(types1[|types1| - 1].decl);
  }

  /** What the last type of a block names is there. */
  ghost predicate LastIsCovered(docs: Docs, root: Root, types: seq<Named>, queue: seq<string>) {
    types != [] &&
    forall n <- NamedIn(types[|types| - 1].decl) ::
      (OnlyShared(docs, n) ==> n in queue) && (n in EnumNames(docs, root) ==> n in Names(types))
  }

  lemma BlockIsCovered(docs: Docs, root: Root, types0: seq<Named>, queue0: seq<string>, types1: seq<Named>,
                       queue1: seq<string>)
    requires QueueCovers(docs, types0, queue0) && EnumsKnown(docs, root, types0)
    requires Block(docs, root, types0, queue0, types1, queue1) && LastIsCovered(docs, root, types1, queue1)
    requires forall n <- queue1 :: OnlyShared(docs, n)
    ensures QueueCovers(docs, types1, queue1) && EnumsKnown(docs, root, types1)
  {
    hide NamedIn, EnumNames, OnlyShared;
    var last := types1[|types1| - 1];
    assert last in types1 && forall t <- types0 :: t in types1;
    assert forall n <- queue0 :: n in queue1;
    assert forall t <- types1 :: t in types0 || NamedIn(t.decl) == {} || t == last;
    assert Names(types0) <= Names(types1);
  }

  /** Order is kept by one more block. */
  lemma BlockKeepsOrder(docs: Docs, root: Root, types0: seq<Named>, queue0: seq<string>, types1: seq<Named>,
                        queue1: seq<string>)
    requires Ordered(docs, root, types0, queue0) && Block(docs, root, types0, queue0, types1, queue1)
    requires NoneTwice(queue1) && (forall n <- queue1 :: OnlyShared(docs, n))
    requires LastIsCovered(docs, root, types1, queue1)
    ensures Ordered(docs, root, types1, queue1)
    ensures Skeleton(docs, root, types1) == Skeleton(docs, root, types0) + [types1[|types1| - 1].name]
  {
    hide NamedIn, EnumNames, FirstNamedInTurn, EnumsInPlace, QueueCovers, EnumsKnown, OnlyShared, Skeleton;
    TurnsKept(docs, root, types0, queue0, types1, queue1);
    EnumsPlaced(docs, root, types0, queue0, types1, queue1);
    BlockIsCovered(docs, root, types0, queue0, types1, queue1);
    SkeletonGrows(docs, root, types0, types1);
  }

  lemma {:induction false} LocalsAreListed(docs: Docs, order: seq<string>, n: string)
    requires n in Locals(docs, order)
    ensures n in order && n in docs.local
  {
    hide Nullable;
    var front, last := order[..|order| - 1], order[|order| - 1];
    assert order == front + [last];
    if n in Locals(docs, front) {
      LocalsAreListed(docs, front, n);
    }
  }

  /** Where names are apart: the types so far, inline enums aside, and their order. */
  ghost predicate OrderKept(docs: Docs, root: Root, skeleton: seq<string>, types: seq<Named>, queue: seq<string>) {
    NamesApart(docs, root) ==> Skeleton(docs, root, types) == skeleton && Ordered(docs, root, types, queue)
  }

  /** A name that is not in the skeleton has no type yet. */
  lemma NotYet(docs: Docs, root: Root, skeleton: seq<string>, types: seq<Named>, queue: seq<string>, n: string)
    requires OrderKept(docs, root, skeleton, types, queue) && NamesApart(docs, root)
    requires (n in docs.local || n in docs.shared) && n !in skeleton
    ensures n !in Names(types)
  {
    hide Ordered, Skeleton;
    if n in Names(types) {
      assert n !in EnumNames(docs, root);
      SkeletonMember(docs, root, types, n);
    }
  }

  /** The next local definition in the list is not in the skeleton yet. */
  lemma NextLocal(docs: Docs, order: seq<string>, i: nat)
    requires NoneTwice(order) && i < |order|
    ensures order[i] !in Locals(docs, order[..i])
    ensures Locals(docs, order[..i + 1]) ==
            Locals(docs, order[..i]) +
            if order[i] in docs.local && !Nullable(docs.local[order[i]]) then [order[i]] else []
  {
    hide Nullable;
    assert order[..i + 1][..i] == order[..i] && order[..i + 1][i] == order[i];
    if order[i] in Locals(docs, order[..i]) {
      LocalsAreListed(docs, order[..i], order[i]);
    }
  }

  lemma NothingIsOrdered(docs: Docs, root: Root)
    ensures OrderKept(docs, root, [], [], []) && Locals(docs, []) == []
  {
  }

  lemma OrderIsKept(docs: Docs, root: Root, order: seq<string>, types: seq<Named>, queue: seq<string>)
    requires NamesApart(docs, root) && NoneTwice(queue)
    requires OrderKept(docs, root, Locals(docs, order) + RootNames(root) + queue, types, queue)
    ensures InModelOrder(docs, root, order, types)
  {
    hide NamesApart, Skeleton, FirstNamedInTurn, EnumsInPlace;
  }

  lemma NextQueued(front: seq<string>, queue0: seq<string>, queue1: seq<string>, i: nat)
    requires i < |queue0| && queue0 <= queue1
    ensures front + queue0[..i] + [queue0[i]] == front + queue1[..i + 1]
  {
  }
}
