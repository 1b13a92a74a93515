/** Finding the bracket that closes a group, and splitting a token list at its top-level commas. */
module Brackets {
  import opened Common

  datatype Token = Token(value: string, line: nat)

  const OPENERS: seq<string> := ["(", "[", "{"]
  const CLOSERS: seq<string> := [")", "]", "}"]

  predicate IsOpen(value: string) { value in OPENERS }
  predicate IsClose(value: string) { value in CLOSERS }

  predicate Closes(opening: string, value: string) {
    (opening == "(" && value == ")") || (opening == "[" && value == "]") || (opening == "{" && value == "}")
  }

  // ---------------------------------------------------------------- properly nested text

  /** Properly nested text is a forest: plain tokens, and groups between brackets of one kind. */
  datatype Tree = Leaf(token: Token) | Group(open: Token, body: seq<Tree>, close: Token)

  predicate Nested(t: Tree) {
    match t
    case Leaf(token) => token.value !in ["(", "[", "{", ")", "]", "}"]
    case Group(open, body, close) => Closes(open.value, close.value) && forall i | 0 <= i < |body| :: Nested(body[i])
  }

  predicate AllNested(f: seq<Tree>) {
    forall i | 0 <= i < |f| :: Nested(f[i])
  }

  function TokensOf(t: Tree): seq<Token>
    decreases t, 1, 0
  {
    match t
    case Leaf(token) => [token]
    case Group(open, body, close) => [open] + Flatten(body) + [close]
  }

  function Flatten(f: seq<Tree>): seq<Token>
    decreases f, 0, |f|
  {
    if f == [] then [] else Flatten(f[..|f| - 1]) + TokensOf(f[|f| - 1])
  }

  /** The tokens from `start` through `end` are one group. */
  ghost predicate GroupAt(tokens: seq<Token>, start: nat, end: nat) {
    start < end < |tokens| &&
    exists body: seq<Tree> ::
      AllNested(body) && Closes(tokens[start].value, tokens[end].value) && tokens[start + 1..end] == Flatten(body)
  }

  lemma {:induction false} FlattenAppend(f: seq<Tree>, g: seq<Tree>)
    ensures Flatten(f + g) == Flatten(f) + Flatten(g)
  {
    if g == [] {
      assert f + g == f;
    } else {
      assert (f + g)[..|f + g| - 1] == f + g[..|g| - 1];
      FlattenAppend(f, g[..|g| - 1]);
    }
  }

  // ---------------------------------------------------------------- matching

  /** Where the stack of open brackets runs empty, reading from `at`. */
  function Scan(tokens: seq<Token>, at: nat, stack: seq<string>): (end: Option<nat>)
    requires at <= |tokens| && stack != []
    ensures end.Some? ==> at <= end.value < |tokens|
    decreases |tokens| - at
  {
    if at == |tokens| then None
    else
      var value, top := tokens[at].value, stack[|stack| - 1];
      if IsOpen(value) then Scan(tokens, at + 1, stack + [value])
      else if IsClose(value) then
        if !Closes(top, value) then None
        else if |stack| == 1 then Some(at)
        else Scan(tokens, at + 1, stack[..|stack| - 1])
      else Scan(tokens, at + 1, stack)
  }

  method Matching(tokens: seq<Token>, start: nat) returns (end: Option<nat>)
    requires start < |tokens|
    ensures forall e: nat :: GroupAt(tokens, start, e) <==> end == Some(e)
  {
    var opening := tokens[start].value;
    if !IsOpen(opening) {
      return None;
    }
    MatchingExact(tokens, start);
    var stack := [opening];
    var at := start + 1;
    while at < |tokens|
      invariant start < at <= |tokens| && stack != []
      invariant Scan(tokens, at, stack) == Scan(tokens, start + 1, [opening])
    {
      var value := tokens[at].value;
      if IsOpen(value) {
        stack := stack + [value];
      } else if IsClose(value) {
        if !Closes(stack[|stack| - 1], value) {
          return None;
        }
        stack := stack[..|stack| - 1];
        if stack == [] {
          return Some(at);
        }
      }
      at := at + 1;
    }
    return None;
  }

  /** The tokens from `at` on begin with these. */
  predicate Reads(tokens: seq<Token>, at: nat, text: seq<Token>) {
    at + |text| <= |tokens| && tokens[at..at + |text|] == text
  }

  lemma ReadsParts(tokens: seq<Token>, at: nat, a: seq<Token>, b: seq<Token>)
    requires Reads(tokens, at, a + b)
    ensures Reads(tokens, at, a) && Reads(tokens, at + |a|, b)
  {
    var text := tokens[at..at + |a + b|];
    assert tokens[at..at + |a|] == text[..|a|];
    assert tokens[at + |a|..at + |a + b|] == text[|a|..];
  }

  lemma ClosesKinds(opening: string, value: string)
    requires Closes(opening, value)
    ensures IsOpen(opening) && IsClose(value) && !IsOpen(value)
  {
  }

  lemma {:induction false} GroupParts(tokens: seq<Token>, at: nat, t: Tree)
    requires t.Group? && Reads(tokens, at, TokensOf(t))
    ensures tokens[at] == t.open && Reads(tokens, at + 1, Flatten(t.body))
    ensures at + 1 + |Flatten(t.body)| < |tokens| && tokens[at + 1 + |Flatten(t.body)|] == t.close
  {
    hide Flatten;
    var inner, text := Flatten(t.body), tokens[at..at + |TokensOf(t)|];
    assert tokens[at] == text[0] && tokens[at + 1 + |inner|] == text[1 + |inner|];
    assert tokens[at + 1..at + 1 + |inner|] == text[1..1 + |inner|];
  }

  /** Nested text leaves the stack as it found it. */
  lemma {:induction false} ScanPastTree(tokens: seq<Token>, at: nat, t: Tree, stack: seq<string>)
    requires Nested(t) && stack != [] && Reads(tokens, at, TokensOf(t))
    ensures Scan(tokens, at, stack) == Scan(tokens, at + |TokensOf(t)|, stack)
    decreases t, 1, 0
  {
    match t {
      case Leaf(token) => assert tokens[at] == tokens[at..at + 1][0];
      case Group(open, body, close) =>
        GroupParts(tokens, at, t);
        ClosesKinds(open.value, close.value);
        var pushed, end := stack + [open.value], at + 1 + |Flatten(body)|;
        assert pushed[..|pushed| - 1] == stack;
        hide IsOpen, IsClose, Closes, Flatten;
        assert Scan(tokens, at, stack) == Scan(tokens, at + 1, pushed);
        assert Scan(tokens, end, pushed) == Scan(tokens, end + 1, stack);
        ScanPast(tokens, at + 1, body, pushed);
    }
  }

  lemma {:induction false} ScanPast(tokens: seq<Token>, at: nat, f: seq<Tree>, stack: seq<string>)
    requires AllNested(f) && stack != [] && Reads(tokens, at, Flatten(f))
    ensures Scan(tokens, at, stack) == Scan(tokens, at + |Flatten(f)|, stack)
    decreases f, 0, |f|
  {
    if f != [] {
      var init, last := f[..|f| - 1], f[|f| - 1];
      assert Flatten(f) == Flatten(init) + TokensOf(last);
      hide Flatten, TokensOf, Scan;
      ReadsParts(tokens, at, Flatten(init), TokensOf(last));
      ScanPast(tokens, at, init, stack);
      ScanPastTree(tokens, at + |Flatten(init)|, last, stack);
    }
  }

  /** What closes one open bracket: the nested text before its partner, and the partner. */
  datatype Rung = Rung(inside: seq<Tree>, close: Token)

  /** The rungs close the stack from its top down. */
  predicate Climbs(stack: seq<string>, rungs: seq<Rung>) {
    if stack == [] || rungs == [] then stack == [] && rungs == []
    else
      && AllNested(rungs[0].inside) && Closes(stack[|stack| - 1], rungs[0].close.value)
      && Climbs(stack[..|stack| - 1], rungs[1..])
  }

  function RungTokens(rungs: seq<Rung>): seq<Token> {
    if rungs == [] then [] else Flatten(rungs[0].inside) + [rungs[0].close] + RungTokens(rungs[1..])
  }

  /** Nested text in front of the first rung. */
  function Extend(tree: Tree, rungs: seq<Rung>): seq<Rung>
    requires rungs != []
  {
    [Rung([tree] + rungs[0].inside, rungs[0].close)] + rungs[1..]
  }

  lemma {:induction false} ExtendClimbs(stack: seq<string>, tree: Tree, rungs: seq<Rung>)
    requires stack != [] && Climbs(stack, rungs) && Nested(tree)
    ensures Climbs(stack, Extend(tree, rungs)) && RungTokens(Extend(tree, rungs)) == TokensOf(tree) + RungTokens(rungs)
  {
    assert AllNested([tree] + rungs[0].inside);
    hide TokensOf, AllNested;
    FlattenAppend([tree], rungs[0].inside);
    assert Flatten([tree]) == TokensOf(tree) by {
      assert Flatten([tree][..0]) == [];
    }
    assert Extend(tree, rungs)[1..] == rungs[1..];
  }

  /** The top bracket and its rung become one group. */
  lemma {:induction false} CloseTop(stack: seq<string>, open: Token, rungs: seq<Rung>)
    requires stack != [] && Climbs(stack + [open.value], rungs)
    ensures rungs[1..] != []
    ensures
      var rest := Extend(Group(open, rungs[0].inside, rungs[0].close), rungs[1..]);
      Climbs(stack, rest) && RungTokens(rest) == [open] + RungTokens(rungs)
  {
    assert (stack + [open.value])[..|stack|] == stack;
    hide Flatten;
    ExtendClimbs(stack, Group(open, rungs[0].inside, rungs[0].close), rungs[1..]);
  }

  /** If the stack runs empty, everything read was nested text and the partners. */
  lemma {:induction false} ScanClimbs(tokens: seq<Token>, at: nat, stack: seq<string>) returns (rungs: seq<Rung>)
    requires at <= |tokens| && stack != [] && Scan(tokens, at, stack).Some?
    ensures Climbs(stack, rungs) && tokens[at..Scan(tokens, at, stack).value + 1] == RungTokens(rungs)
    decreases |tokens| - at
  {
    var end, token := Scan(tokens, at, stack).value, tokens[at];
    if IsClose(token.value) && |stack| == 1 {
      rungs := [Rung([], token)];
      assert Flatten([]) == [] && stack[..0] == [] && rungs[1..] == [];
    } else {
      var next := Moved(stack, token.value);
      assert Scan(tokens, at, stack) == Scan(tokens, at + 1, next);
      hide Scan;
      var rest := ScanClimbs(tokens, at + 1, next);
      assert tokens[at..end + 1] == [token] + tokens[at + 1..end + 1];
      rungs := RungsBefore(stack, token, rest);
      PrependToken(stack, token, rest);
    }
  }

  /** The stack after one token that does not end the scan. */
  function Moved(stack: seq<string>, value: string): seq<string>
    requires stack != []
  {
    if IsOpen(value) then stack + [value] else if IsClose(value) then stack[..|stack| - 1] else stack
  }

  function RungsBefore(stack: seq<string>, token: Token, rest: seq<Rung>): seq<Rung>
    requires stack != [] && Climbs(Moved(stack, token.value), rest)
  {
    if IsOpen(token.value) then
      CloseTop(stack, token, rest);
      Extend(Group(token, rest[0].inside, rest[0].close), rest[1..])
    else if IsClose(token.value) then [Rung([], token)] + rest
    else Extend(Leaf(token), rest)
  }

  lemma {:induction false} PrependToken(stack: seq<string>, token: Token, rest: seq<Rung>)
    requires stack != [] && Climbs(Moved(stack, token.value), rest)
    requires !IsOpen(token.value) && IsClose(token.value) ==> Closes(stack[|stack| - 1], token.value)
    ensures Climbs(stack, RungsBefore(stack, token, rest))
    ensures RungTokens(RungsBefore(stack, token, rest)) == [token] + RungTokens(rest)
  {
    if IsOpen(token.value) {
      CloseTop(stack, token, rest);
    } else if IsClose(token.value) {
      var rungs := [Rung([], token)] + rest;
      assert rungs[1..] == rest && Flatten([]) == [];
    } else {
      ExtendClimbs(stack, Leaf(token), rest);
    }
  }

  /** The scan finds the end of the group, if there is one, and nothing else. */
  lemma {:induction false} MatchingExact(tokens: seq<Token>, start: nat)
    requires start < |tokens| && IsOpen(tokens[start].value)
    ensures forall e: nat :: GroupAt(tokens, start, e) <==> Scan(tokens, start + 1, [tokens[start].value]) == Some(e)
  {
    if Scan(tokens, start + 1, [tokens[start].value]).Some? {
      ScanFindsGroup(tokens, start);
    }
    forall e: nat | GroupAt(tokens, start, e) ensures Scan(tokens, start + 1, [tokens[start].value]) == Some(e) {
      GroupIsFound(tokens, start, e);
    }
  }

  lemma {:induction false} GroupIsFound(tokens: seq<Token>, start: nat, e: nat)
    requires GroupAt(tokens, start, e)
    ensures Scan(tokens, start + 1, [tokens[start].value]) == Some(e)
  {
    var body :| AllNested(body) && Closes(tokens[start].value,
                                          tokens[e].value) && tokens[start + 1..e] == Flatten(body);
    ClosesKinds(tokens[start].value, tokens[e].value);
    hide Flatten, IsOpen, IsClose, Closes;
    ScanPast(tokens, start + 1, body, [tokens[start].value]);
  }

  lemma {:induction false} ScanFindsGroup(tokens: seq<Token>, start: nat)
    requires start < |tokens| && Scan(tokens, start + 1, [tokens[start].value]).Some?
    ensures GroupAt(tokens, start, Scan(tokens, start + 1, [tokens[start].value]).value)
  {
    var stack := [tokens[start].value];
    var end := Scan(tokens, start + 1, stack).value;
    var rungs := ScanClimbs(tokens, start + 1, stack);
    assert stack[..0] == [] && rungs[1..] == [];
    assert RungTokens(rungs) == Flatten(rungs[0].inside) + [rungs[0].close];
    hide Scan, Flatten, RungTokens;
    var inside, close := rungs[0].inside, rungs[0].close;
    var found := tokens[start + 1..end + 1];
    assert found == Flatten(inside) + [close];
    assert tokens[end] == found[|found| - 1] && tokens[start + 1..end] == found[..|found| - 1];
    assert tokens[start + 1..end] == Flatten(inside) && tokens[end] == close;
  }

  // ---------------------------------------------------------------- splitting

  /** The open brackets after some tokens; a stray closing bracket is ignored. */
  function Unclosed(tokens: seq<Token>): seq<string> {
    if tokens == [] then [] else Advance(Unclosed(tokens[..|tokens| - 1]), tokens[|tokens| - 1].value)
  }

  function Advance(stack: seq<string>, value: string): seq<string> {
    if IsOpen(value) then stack + [value]
    else if IsClose(value) && stack != [] && Closes(stack[|stack| - 1], value) then stack[..|stack| - 1]
    else stack
  }

  predicate CutsAt(tokens: seq<Token>, i: nat)
    requires i < |tokens|
  {
    tokens[i].value == "," && Unclosed(tokens[..i + 1]) == []
  }

  /** The tokens that separate the parts. */
  function Separators(tokens: seq<Token>): seq<Token> {
    if tokens == [] then []
    else
      var n := |tokens| - 1;
      Separators(tokens[..n]) + if CutsAt(tokens, n) then [tokens[n]] else []
  }

  function AddToLast<T>(parts: seq<seq<T>>, more: seq<T>): seq<seq<T>>
    requires parts != []
  {
    parts[..|parts| - 1] + [parts[|parts| - 1] + more]
  }

  function Parts(tokens: seq<Token>): (parts: seq<seq<Token>>)
    ensures parts != []
  {
    if tokens == [] then [[]]
    else
      var n := |tokens| - 1;
      if CutsAt(tokens, n) then Parts(tokens[..n]) + [[]] else AddToLast(Parts(tokens[..n]), [tokens[n]])
  }

  /** What one more token does. */
  lemma TokenRead(before: seq<Token>, token: Token)
    ensures var stack := Advance(Unclosed(before), token.value);
      && Unclosed(before + [token]) == stack
      && Parts(before + [token]) ==
           if token.value == "," && stack == [] then Parts(before) + [[]] else AddToLast(Parts(before), [token])
  {
    var tokens := before + [token];
    assert tokens[..|before|] == before && tokens[..|before| + 1] == tokens;
  }

  method SplitTopLevel(tokens: seq<Token>) returns (parts: seq<seq<Token>>)
    ensures parts == Parts(tokens)
  {
    assert tokens[..0] == [] && Parts([]) == [[]] && Unclosed([]) == [];
    hide Parts, Unclosed, IsOpen, IsClose, Closes;
    parts := [[]];
    var stack: seq<string> := [];
    for i := 0 to |tokens|
      invariant parts == Parts(tokens[..i]) && stack == Unclosed(tokens[..i])
    {
      var token := tokens[i];
      TokenRead(tokens[..i], token);
      assert tokens[..i + 1] == tokens[..i] + [token];
      if IsOpen(token.value) {
        stack := stack + [token.value];
      } else if IsClose(token.value) {
        if stack != [] && Closes(stack[|stack| - 1], token.value) {
          stack := stack[..|stack| - 1];
        }
      }
      if token.value == "," && stack == [] {
        parts := parts + [[]];
      } else {
        parts := parts[..|parts| - 1] + [parts[|parts| - 1] + [token]];
      }
    }
    assert tokens[..|tokens|] == tokens;
  }

  /** The parts put back together, with a separator token before each but the first. */
  function Rejoin(parts: seq<seq<Token>>, separators: seq<Token>): seq<Token>
    requires |parts| == |separators| + 1
  {
    if separators == [] then parts[0]
    else
      var n := |separators| - 1;
      Rejoin(parts[..n + 1], separators[..n]) + [separators[n]] + parts[n + 1]
  }

  /** Nothing is lost on any input: the parts rejoin over the commas that were cut at. */
  lemma {:induction false} PartsRejoin(tokens: seq<Token>)
    ensures |Parts(tokens)| == |Separators(tokens)| + 1 && forall c <- Separators(tokens) :: c.value == ","
    ensures Rejoin(Parts(tokens), Separators(tokens)) == tokens
  {
    if tokens != [] {
      var n := |tokens| - 1;
      var init := tokens[..n];
      var parts, separators := Parts(init), Separators(init);
      PartsRejoin(init);
      assert tokens == init + [tokens[n]];
      if CutsAt(tokens, n) {
        assert (separators + [tokens[n]])[..|separators|] == separators;
        assert (parts + [[]])[..|parts|] == parts;
      } else {
        assert Separators(tokens) == separators;
        RejoinAddToLast(parts, separators, [tokens[n]]);
      }
    }
  }

  lemma RejoinAddToLast(parts: seq<seq<Token>>, separators: seq<Token>, more: seq<Token>)
    requires |parts| == |separators| + 1
    ensures Rejoin(AddToLast(parts, more), separators) == Rejoin(parts, separators) + more
  {
    var n := |separators| - 1;
    if separators != [] {
      assert AddToLast(parts, more)[..n + 1] == parts[..n + 1];
    }
  }

  // ---------------------------------------------------------------- splitting nested text

  predicate IsComma(t: Tree) {
    t.Leaf? && t.token.value == ","
  }

  /** A forest cut at its own commas. */
  function Split(f: seq<Tree>): (parts: seq<seq<Tree>>)
    ensures parts != []
  {
    if f == [] then [[]]
    else
      var n := |f| - 1;
      if IsComma(f[n]) then Split(f[..n]) + [[]] else AddToLast(Split(f[..n]), [f[n]])
  }

  function FlattenAll(parts: seq<seq<Tree>>): seq<seq<Token>> {
    seq(|parts|, i requires 0 <= i < |parts| => Flatten(parts[i]))
  }

  predicate NestedPart(part: seq<Tree>) {
    AllNested(part) && forall i | 0 <= i < |part| :: !IsComma(part[i])
  }

  lemma {:induction false} SplitIsNested(f: seq<Tree>)
    requires AllNested(f)
    ensures forall i | 0 <= i < |Split(f)| :: NestedPart(Split(f)[i])
  {
    if f != [] {
      var n := |f| - 1;
      SplitIsNested(f[..n]);
      var parts := Split(f[..n]);
      var last := parts[|parts| - 1];
      assert NestedPart(last);
      assert !IsComma(f[n]) ==> NestedPart(last + [f[n]]);
    }
  }

  lemma AddedTwice(parts: seq<seq<Token>>, a: seq<Token>, b: seq<Token>)
    requires parts != []
    ensures AddToLast(parts, []) == parts && AddToLast(AddToLast(parts, a), b) == AddToLast(parts, a + b)
  {
    var n := |parts| - 1;
    assert parts[n] + a + b == parts[n] + (a + b) && parts[n] + [] == parts[n];
    assert AddToLast(parts, a)[..n] == parts[..n];
  }

  /** Nested text that holds no comma of its own, or stands inside a group, never cuts. */
  lemma {:induction false} InsideTree(before: seq<Token>, t: Tree)
    requires Nested(t) && (Unclosed(before) == [] ==> !IsComma(t))
    ensures Unclosed(before + TokensOf(t)) == Unclosed(before)
    ensures Parts(before + TokensOf(t)) == AddToLast(Parts(before), TokensOf(t))
    decreases t, 1, 0
  {
    hide Unclosed, Parts, AddToLast;
    match t {
      case Leaf(token) => TokenRead(before, token);
      case Group(open, body, close) =>
        ClosesKinds(open.value, close.value);
        assert open.value != "," && close.value != ",";
        var stack := Unclosed(before);
        var pushed := stack + [open.value];
        assert pushed[..|stack|] == stack && Advance(pushed, close.value) == stack;
        var text := before + [open] + Flatten(body);
        assert before + TokensOf(t) == text + [close];
        var inner := Flatten(body);
        assert TokensOf(t) == [open] + inner + [close];
        hide Flatten, TokensOf, IsOpen, IsClose, Closes;
        TokenRead(before, open);
        Inside(before + [open], body);
        TokenRead(text, close);
        AddedTwice(Parts(before), [open], inner);
        AddedTwice(Parts(before), [open] + inner, [close]);
    }
  }

  lemma {:induction false} Inside(before: seq<Token>, f: seq<Tree>)
    requires AllNested(f) && Unclosed(before) != []
    ensures Unclosed(before + Flatten(f)) == Unclosed(before)
    ensures Parts(before + Flatten(f)) == AddToLast(Parts(before), Flatten(f))
    decreases f, 0, |f|
  {
    hide TokensOf, Unclosed, Parts, AddToLast;
    if f == [] {
      AddedTwice(Parts(before), [], []);
      assert before + Flatten(f) == before;
    } else {
      var init, last := f[..|f| - 1], f[|f| - 1];
      assert Flatten(f) == Flatten(init) + TokensOf(last);
      hide Flatten;
      Inside(before, init);
      InsideTree(before + Flatten(init), last);
      AddedTwice(Parts(before), Flatten(init), TokensOf(last));
      assert before + Flatten(f) == before + Flatten(init) + TokensOf(last);
    }
  }

  lemma FlattenAdded(parts: seq<seq<Tree>>, t: Tree)
    requires parts != []
    ensures FlattenAll(parts + [[]]) == FlattenAll(parts) + [[]]
    ensures FlattenAll(AddToLast(parts, [t])) == AddToLast(FlattenAll(parts), TokensOf(t))
  {
    var last := parts[|parts| - 1];
    assert (last + [t])[..|last|] == last;
    assert Flatten(last + [t]) == Flatten(last) + TokensOf(t);
    assert Flatten([]) == [];
    hide Flatten, TokensOf;
  }

  /** On properly nested text the parts are the forest's own: each properly nested, none with a comma
      outside its groups. */
  lemma {:induction false} PartsAreNested(f: seq<Tree>)
    requires AllNested(f)
    ensures Unclosed(Flatten(f)) == [] && Parts(Flatten(f)) == FlattenAll(Split(f))
  {
    if f == [] {
      assert Flatten([]) == [];
    } else {
      var init, last := f[..|f| - 1], f[|f| - 1];
      assert Flatten(f) == Flatten(init) + TokensOf(last);
      assert IsComma(last) ==> TokensOf(last) == [last.token];
      hide Flatten, TokensOf, Unclosed, Parts, AddToLast, FlattenAll;
      PartsAreNested(init);
      FlattenAdded(Split(init), last);
      if IsComma(last) {
        TokenRead(Flatten(init), last.token);
      } else {
        InsideTree(Flatten(init), last);
      }
    }
  }
}
