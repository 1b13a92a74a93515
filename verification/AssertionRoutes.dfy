/** The pointers blocks are filed under, and the routed schema built from all blocks of the corpus. */
module AssertionRoutes {
  import opened Documents
  import opened SchemaInference
  import opened SchemaInferenceProofs
  import opened AssertionBlocks

  // ---------------------------------------------------------------- pointers

  function Replace(s: string, c: char, with: string): string {
    if s == "" then "" else (if s[0] == c then with else [s[0]]) + Replace(s[1..], c, with)
  }

  function Escape(s: string): string {
    Replace(Replace(s, '~', "~0"), '/', "~1")
  }

  /** An index is filed as `*`, so all elements of a list share one route. */
  function Spelling(p: Part): string {
    match p
    case Key(name) => name
    case Index(_) => "*"
  }

  function Encoded(p: Part): string {
    if p.Index? then "*" else Escape(p.name)
  }

  function Joined(parts: seq<Part>): string
    requires parts != []
  {
    if |parts| == 1 then Encoded(parts[0]) else Encoded(parts[0]) + "/" + Joined(parts[1..])
  }

  function Pointer(parts: seq<Part>): string {
    "/" + if parts == [] then "" else Joined(parts)
  }

  function Spellings(parts: seq<Part>): (r: seq<string>)
    ensures |r| == |parts|
  {
    if parts == [] then [] else [Spelling(parts[0])] + Spellings(parts[1..])
  }

  /** The escaping of one character. */
  function EscapeChar(c: char): string {
    if c == '~' then "~0" else if c == '/' then "~1" else [c]
  }

  lemma {:induction false} ReplaceJoins(a: string, b: string, c: char, with: string)
    ensures Replace(a + b, c, with) == Replace(a, c, with) + Replace(b, c, with)
  {
    if a == "" {
      assert a + b == b;
    } else {
      assert (a + b)[1..] == a[1..] + b;
      ReplaceJoins(a[1..], b, c, with);
    }
  }

  lemma ReplaceTwo(a: char, b: char, c: char, with: string)
    ensures Replace([a], c, with) == if a == c then with else [a]
    ensures Replace([a, b], c, with) == (if a == c then with else [a]) + (if b == c then with else [b])
  {
    assert [a][1..] == "" && [b][1..] == "" && [a, b][1..] == [b];
    assert Replace([b], c, with) == if b == c then with else [b];
  }

  lemma EscapeFirst(s: string)
    requires s != ""
    ensures Escape(s) == EscapeChar(s[0]) + Escape(s[1..])
  {
    var first, rest := if s[0] == '~' then "~0" else [s[0]], Replace(s[1..], '~', "~0");
    assert Replace(s, '~', "~0") == first + rest;
    hide Replace;
    ReplaceJoins(first, rest, '/', "~1");
    ReplaceTwo('~', '0', '/', "~1");
    ReplaceTwo(s[0], s[0], '/', "~1");
  }

  lemma {:induction false} EscapeHasNoSlash(s: string)
    ensures '/' !in Escape(s)
  {
    if s != "" {
      EscapeFirst(s);
      EscapeHasNoSlash(s[1..]);
    }
  }

  /** Escaping loses nothing. */
  lemma {:induction false} EscapeInjective(s: string, t: string)
    requires Escape(s) == Escape(t)
    ensures s == t
  {
    if s != "" && t != "" {
      EscapeFirst(s);
      EscapeFirst(t);
      var e := Escape(s);
      assert e[0] == EscapeChar(s[0])[0] && e[0] == EscapeChar(t[0])[0];
      assert e[0] == '~' ==> e[1] == EscapeChar(s[0])[1] && e[1] == EscapeChar(t[0])[1];
      assert EscapeChar(s[0]) == EscapeChar(t[0]) && s[0] == t[0];
      assert Escape(s[1..]) == e[|EscapeChar(s[0])|..] && Escape(t[1..]) == e[|EscapeChar(t[0])|..];
      EscapeInjective(s[1..], t[1..]);
      assert s == [s[0]] + s[1..] && t == [t[0]] + t[1..];
    } else {
      assert s != "" ==> Escape(s) != "" by { if s != "" { EscapeFirst(s); } }
      assert t != "" ==> Escape(t) != "" by { if t != "" { EscapeFirst(t); } }
    }
  }

  lemma EncodedInjective(p: Part, q: Part)
    ensures Encoded(p) == Encoded(q) <==> Spelling(p) == Spelling(q)
    ensures '/' !in Encoded(p)
  {
    EscapeFirst("*");
    assert Escape("*") == "*" by { assert "*"[1..] == ""; }
    assert Encoded(p) == Escape(Spelling(p)) && Encoded(q) == Escape(Spelling(q));
    EscapeHasNoSlash(Spelling(p));
    if Encoded(p) == Encoded(q) {
      EscapeInjective(Spelling(p), Spelling(q));
    }
  }

  /** A slash-free head ends where the first slash stands. */
  lemma HeadsAgree(a: string, b: string, u: string, v: string)
    requires '/' !in a && '/' !in b
    ensures a + "/" + u == b + "/" + v ==> a == b && u == v
    ensures a != b + "/" + v
  {
    if a + "/" + u == b + "/" + v {
      var s := a + "/" + u;
      assert s[|a|] == '/' && s[|b|] == '/';
      assert forall i | 0 <= i < |a| :: s[i] == a[i];
      assert forall i | 0 <= i < |b| :: s[i] == b[i];
      assert a == s[..|a|] && b == s[..|b|] && u == s[|a| + 1..] && v == s[|b| + 1..];
    }
    assert (b + "/" + v)[|b|] == '/';
  }

  lemma {:induction false} JoinedInjective(p: seq<Part>, q: seq<Part>)
    requires p != [] && q != []
    ensures Joined(p) == Joined(q) <==> Spellings(p) == Spellings(q)
  {
    hide Encoded;
    EncodedInjective(p[0], q[0]);
    EncodedInjective(q[0], p[0]);
    var u, v := if |p| > 1 then Joined(p[1..]) else "", if |q| > 1 then Joined(q[1..]) else "";
    HeadsAgree(Encoded(p[0]), Encoded(q[0]), u, v);
    HeadsAgree(Encoded(q[0]), Encoded(p[0]), v, u);
    if |p| > 1 && |q| > 1 {
      JoinedInjective(p[1..], q[1..]);
    }
    if Spellings(p) == Spellings(q) {
      assert Spellings(p)[0] == Spelling(p[0]) && Spellings(q)[0] == Spelling(q[0]);
      assert Spellings(p)[1..] == Spellings(p[1..]) && Spellings(q)[1..] == Spellings(q[1..]);
    }
  }

  /** Two blocks share a pointer exactly when their paths agree up to list positions, an index and a
      member called `*` counting as the same. */
  lemma PointerExact(p: seq<Part>, q: seq<Part>)
    requires p != [] && q != []
    ensures Pointer(p) == Pointer(q) <==> Spellings(p) == Spellings(q)
  {
    JoinedInjective(p, q);
    assert Joined(p) == Pointer(p)[1..] && Joined(q) == Pointer(q)[1..];
  }

  // ---------------------------------------------------------------- reading a pointer

  /** The reference tokens of a pointer after its leading slash (section 4 of RFC 6901). */
  function Tokens(s: string): (tokens: seq<string>)
    ensures tokens != [] && forall i | 0 <= i < |tokens| :: '/' !in tokens[i]
  {
    if s == "" then [""]
    else
      var rest := Tokens(s[1..]);
      if s[0] == '/' then [""] + rest else [[s[0]] + rest[0]] + rest[1..]
  }

  function Unescaped(token: string): string {
    if token == "" then ""
    else if |token| > 1 && token[0] == '~' && token[1] == '1' then "/" + Unescaped(token[2..])
    else if |token| > 1 && token[0] == '~' && token[1] == '0' then "~" + Unescaped(token[2..])
    else [token[0]] + Unescaped(token[1..])
  }

  /** A tilde stands only in front of a 0 or a 1 (section 3 of RFC 6901). */
  predicate ProperlyEscaped(token: string) {
    forall i | 0 <= i < |token| && token[i] == '~' :: i + 1 < |token| && (token[i + 1] == '0' || token[i + 1] == '1')
  }

  /** Read as a pointer, the text names the members of the path, with a `*` for each position in a list. */
  predicate PointsTo(text: string, parts: seq<Part>) {
    text != "" && text[0] == '/' &&
    var tokens := Tokens(text[1..]);
    |tokens| == |parts| && forall i | 0 <= i < |parts| :: StandsFor(tokens[i], parts[i])
  }

  predicate StandsFor(token: string, part: Part) {
    ProperlyEscaped(token) &&
    match part
    case Key(name) => Unescaped(token) == name
    case Index(_) => token == "*"
  }

  function AllEncoded(parts: seq<Part>): (r: seq<string>)
    ensures |r| == |parts| && forall i | 0 <= i < |parts| :: r[i] == Encoded(parts[i])
  {
    if parts == [] then [] else [Encoded(parts[0])] + AllEncoded(parts[1..])
  }

  lemma {:induction false} TokensOfHead(a: string, rest: string)
    requires '/' !in a
    ensures Tokens(a) == [a] && Tokens(a + "/" + rest) == [a] + Tokens(rest)
  {
    if a == "" {
      assert (a + "/" + rest)[1..] == rest;
    } else {
      TokensOfHead(a[1..], rest);
      assert (a + "/" + rest)[1..] == a[1..] + "/" + rest;
      assert a == [a[0]] + a[1..];
    }
  }

  lemma {:induction false} TokensOfJoined(parts: seq<Part>)
    requires parts != []
    ensures Tokens(Joined(parts)) == AllEncoded(parts)
  {
    hide Encoded;
    EncodedInjective(parts[0], parts[0]);
    TokensOfHead(Encoded(parts[0]), if |parts| > 1 then Joined(parts[1..]) else "");
    if |parts| > 1 {
      TokensOfJoined(parts[1..]);
    }
  }

  lemma {:induction false} TokensInjective(s: string, t: string)
    requires Tokens(s) == Tokens(t)
    ensures s == t
  {
    TokensSize(s);
    TokensSize(t);
    if s != "" && t != "" {
      var u, v := Tokens(s[1..]), Tokens(t[1..]);
      if s[0] == '/' && t[0] == '/' {
        assert u == Tokens(s)[1..] && v == Tokens(t)[1..];
        TokensInjective(s[1..], t[1..]);
      } else if s[0] == '/' || t[0] == '/' {
        assert false;
      } else {
        assert Tokens(s)[0] == [s[0]] + u[0] && Tokens(t)[0] == [t[0]] + v[0];
        assert u[0] == Tokens(s)[0][1..] == v[0] && s[0] == Tokens(s)[0][0] == t[0];
        assert u[1..] == Tokens(s)[1..] == v[1..];
        assert u == [u[0]] + u[1..] && v == [v[0]] + v[1..];
        TokensInjective(s[1..], t[1..]);
      }
      assert s == [s[0]] + s[1..] && t == [t[0]] + t[1..];
    }
  }

  /** Only the empty text reads as one empty token. */
  lemma TokensSize(s: string)
    ensures Tokens(s) == [""] <==> s == ""
  {
    if s != "" {
      var rest := Tokens(s[1..]);
      if s[0] == '/' {
        assert |Tokens(s)| == 1 + |rest|;
      } else {
        assert |Tokens(s)[0]| == 1 + |rest[0]|;
      }
    }
  }

  lemma ReadFirst(c: char, rest: string)
    ensures Unescaped(EscapeChar(c) + rest) == [c] + Unescaped(rest)
    ensures ProperlyEscaped(rest) ==> ProperlyEscaped(EscapeChar(c) + rest)
  {
    var first := EscapeChar(c);
    assert (first + rest)[|first|..] == rest;
    assert forall i | |first| <= i < |first + rest| :: (first + rest)[i] == rest[i - |first|];
  }

  lemma {:induction false} EscapedReads(s: string)
    ensures ProperlyEscaped(Escape(s)) && Unescaped(Escape(s)) == s
  {
    if s != "" {
      EscapeFirst(s);
      EscapedReads(s[1..]);
      ReadFirst(s[0], Escape(s[1..]));
      hide Escape, Unescaped, ProperlyEscaped;
      assert s == [s[0]] + s[1..];
    }
  }

  lemma {:induction false} ReadEscapes(token: string)
    requires ProperlyEscaped(token) && '/' !in token
    ensures Escape(Unescaped(token)) == token
    decreases |token|
  {
    if token != "" {
      var k := if token[0] == '~' then 2 else 1;
      var rest := token[k..];
      forall i | 0 <= i < |rest| && rest[i] == '~'
        ensures i + 1 < |rest| && (rest[i + 1] == '0' || rest[i + 1] == '1')
      {
        assert token[i + k] == '~';
      }
      ReadEscapes(rest);
      var s := Unescaped(token);
      assert s[1..] == Unescaped(rest);
      EscapeFirst(s);
      assert token == token[..k] + rest;
      assert token[..k] == EscapeChar(s[0]);
    }
  }

  /** A token stands for a part exactly when it is the part encoded. */
  lemma StandsForExact(token: string, part: Part)
    requires '/' !in token
    ensures StandsFor(token, part) <==> token == Encoded(part)
  {
    if part.Key? {
      EscapedReads(part.name);
      if StandsFor(token, part) {
        ReadEscapes(token);
      }
    }
  }

  /** The pointer of a path is the one text that reads, by RFC 6901, as its member names with a `*` for each
      position in a list. */
  lemma PointerReads(parts: seq<Part>, text: string)
    requires parts != []
    ensures text == Pointer(parts) <==> PointsTo(text, parts)
  {
    hide Encoded, StandsFor, Tokens;
    TokensOfJoined(parts);
    assert Pointer(parts)[1..] == Joined(parts);
    if text != "" && text[0] == '/' {
      var tokens := Tokens(text[1..]);
      forall i | 0 <= i < |tokens| && i < |parts|
        ensures StandsFor(tokens[i], parts[i]) <==> tokens[i] == Encoded(parts[i])
      {
        StandsForExact(tokens[i], parts[i]);
      }
      assert text == ['/'] + text[1..];
      if tokens == AllEncoded(parts) {
        TokensInjective(text[1..], Joined(parts));
      }
    }
  }

  // ---------------------------------------------------------------- the routed schema

  datatype Route = Route(fixture: string, pointer: string)
  datatype Record = Record(route: Route, block: Json)

  function BlocksOf(route: Route, records: seq<Record>): (r: seq<Json>)
    ensures forall b :: b in r <==> Record(route, b) in records
  {
    if records == [] then []
    else
      var last := records[|records| - 1];
      BlocksOf(route, records[..|records| - 1]) + if last.route == route then [last.block] else []
  }

  function BuildSchema(records: seq<Record>): (routes: map<Route, Schema>)
    ensures forall r :: r in routes <==> BlocksOf(r, records) != []
    ensures forall r <- routes :: routes[r] == Infer(BlocksOf(r, records))
  {
    var routes := set record | record in records :: record.route;
    assert forall r :: r in routes <==> BlocksOf(r, records) != [] by {
      forall r ensures r in routes <==> BlocksOf(r, records) != [] { RouteOccurs(r, records); }
    }
    map r | r in routes :: Infer(BlocksOf(r, records))
  }

  lemma RouteOccurs(r: Route, records: seq<Record>)
    ensures (r in set record | record in records :: record.route) <==> BlocksOf(r, records) != []
  {
    var blocks := BlocksOf(r, records);
    if blocks != [] {
      assert Record(r, blocks[0]) in records;
    }
    if record :| record in records && record.route == r {
      assert record == Record(r, record.block) && record.block in blocks;
    }
  }

  /** One `oneOf` case: each named property, where present, has the value it names. */
  predicate CaseAccepts(routes: map<Route, Schema>, r: Route, v: Json)
    requires r in routes && v.Obj?
  {
    && ("fixture" in v.fields ==> v.fields["fixture"] == Str(r.fixture))
    && ("pointer" in v.fields ==> v.fields["pointer"] == Str(r.pointer))
    && ("value" in v.fields ==> Validates(routes[r], v.fields["value"]))
  }

  ghost predicate RoutedValidates(routes: map<Route, Schema>, v: Json) {
    && v.Obj? && v.fields.Keys == {"fixture", "pointer", "value"}
    && v.fields["fixture"].Str?
    && v.fields["pointer"].Str? && "/" <= v.fields["pointer"].s
    && v.fields["value"].Obj?
    && exists r <- routes :: CaseAccepts(routes, r, v) && forall r' <- routes :: CaseAccepts(routes, r', v) ==> r' == r
  }

  function Instance(r: Route, block: Json): Json {
    Obj(map["fixture" := Str(r.fixture), "pointer" := Str(r.pointer), "value" := block])
  }

  lemma CaseOfInstance(routes: map<Route, Schema>, r: Route, r': Route, block: Json)
    requires r' in routes
    ensures CaseAccepts(routes, r', Instance(r, block)) <==> r' == r && Validates(routes[r], block)
  {
  }

  /** The routed schema accepts exactly the objects licensed by the blocks filed under their route. */
  lemma RoutedExact(records: seq<Record>, r: Route, block: Json)
    ensures RoutedValidates(BuildSchema(records), Instance(r, block)) <==>
      "/" <= r.pointer && block.Obj? && BlocksOf(r, records) != [] && Licensed(BlocksOf(r, records), block)
  {
    hide Licensed, Validates, Infer;
    var routes, v := BuildSchema(records), Instance(r, block);
    forall r' | r' in routes
      ensures CaseAccepts(routes, r', v) <==> r' == r && Licensed(BlocksOf(r, records), block)
    {
      CaseOfInstance(routes, r, r', block);
      InferExact(BlocksOf(r, records), block);
    }
    assert v.fields.Keys == {"fixture", "pointer", "value"};
  }

  /** Nothing else is accepted: whatever validates is an instance of a route that occurs, licensed by the
      blocks filed under it. */
  lemma RoutedIsInstance(records: seq<Record>, v: Json)
    requires RoutedValidates(BuildSchema(records), v)
    ensures
      var r := Route(v.fields["fixture"].s, v.fields["pointer"].s);
      && r in BuildSchema(records) && v == Instance(r, v.fields["value"])
      && Licensed(BlocksOf(r, records), v.fields["value"])
  {
    hide Licensed, Validates, Infer, BuildSchema;
    var r := Route(v.fields["fixture"].s, v.fields["pointer"].s);
    assert v == Instance(r, v.fields["value"]);
    RoutedExact(records, r, v.fields["value"]);
  }

  // ---------------------------------------------------------------- the records of a corpus

  datatype Fixture = Fixture(path: string, document: Json)

  function RecordAt(path: string, site: Site): Record {
    Record(Route(path, Pointer(site.path)), site.block)
  }

  function RecordsOf(f: Fixture): set<Record> {
    set site | site in Blocks(f.document, []) :: RecordAt(f.path, site)
  }

  /** The records list every block of every document of the corpus, and nothing else. */
  ghost predicate AreRecords(corpus: seq<Fixture>, records: seq<Record>) {
    forall record :: record in records <==> exists f <- corpus :: record in RecordsOf(f)
  }

  method CollectRecords(corpus: seq<Fixture>) returns (found: seq<Record>)
    ensures AreRecords(corpus, found)
  {
    hide RecordsOf;
    found := [];
    for i := 0 to |corpus|
      invariant AreRecords(corpus[..i], found)
    {
      var left := RecordsOf(corpus[i]);
      ghost var before := found;
      while left != {}
        invariant left <= RecordsOf(corpus[i])
        invariant forall record :: record in found <==> record in before || record in RecordsOf(corpus[i]) - left
        decreases left
      {
        var record :| record in left;
        found, left := found + [record], left - {record};
      }
      assert corpus[..i + 1] == corpus[..i] + [corpus[i]];
    }
    assert corpus[..|corpus|] == corpus;
  }

  /** The schema is the corpus's own, whatever order its records were found in. */
  lemma SchemaOfCorpus(corpus: seq<Fixture>, a: seq<Record>, b: seq<Record>)
    requires AreRecords(corpus, a) && AreRecords(corpus, b)
    ensures BuildSchema(a) == BuildSchema(b)
  {
    hide Infer, RecordsOf;
    forall r: Route
      ensures r in BuildSchema(a) <==> r in BuildSchema(b)
      ensures r in BuildSchema(a) ==> BuildSchema(a)[r] == BuildSchema(b)[r]
    {
      SameBlocks(r, a, b);
      InferDependsOnSetOnly(BlocksOf(r, a), BlocksOf(r, b));
    }
  }

  lemma SameBlocks(r: Route, a: seq<Record>, b: seq<Record>)
    requires forall record :: record in a <==> record in b
    ensures SameSet(BlocksOf(r, a), BlocksOf(r, b)) && (BlocksOf(r, a) == [] <==> BlocksOf(r, b) == [])
  {
    assert BlocksOf(r, a) != [] ==> BlocksOf(r, a)[0] in BlocksOf(r, b);
    assert BlocksOf(r, b) != [] ==> BlocksOf(r, b)[0] in BlocksOf(r, a);
  }

  /** Every block found in any document of the corpus validates, through exactly one route. */
  lemma EveryRecordValidates(corpus: seq<Fixture>, records: seq<Record>, f: Fixture, site: Site)
    requires AreRecords(corpus, records) && f in corpus && site in Blocks(f.document, [])
    ensures RoutedValidates(BuildSchema(records), Instance(Route(f.path, Pointer(site.path)), site.block))
  {
    var r := Route(f.path, Pointer(site.path));
    assert RecordAt(f.path, site) in RecordsOf(f);
    hide Blocks, BuildSchema, Infer, Licensed, RoutedValidates, RecordsOf;
    BlocksExact(f.document, site);
    assert site.block in BlocksOf(r, records);
    ExamplesLicensed(BlocksOf(r, records), site.block);
    RoutedExact(records, r, site.block);
  }
}
