/** Assertion blocks of a fixture document, the pointers they are filed under, and the routed
    schema that pins every block to the examples of its route. */
module AssertionBlocks {
  import opened Common
  import opened Documents

  datatype Part = Key(name: string) | Index(i: nat)

  const BLOCK_NAMES := {"assertions", "expect", "expect_after", "expect_initial", "expected"}

  // ---------------------------------------------------------------- finding the blocks

  datatype Site = Site(path: seq<Part>, block: Json)

  /** The blocks one object member announces: itself, or its object elements. */
  function MemberBlocks(name: string, child: Json, path: seq<Part>): set<Site> {
    if name !in BLOCK_NAMES then {}
    else if child.Obj? then {Site(path, child)}
    else if child.Arr? then
      set i | 0 <= i < |child.items| && child.items[i].Obj? :: Site(path + [Index(i)], child.items[i])
    else {}
  }

  function Blocks(v: Json, path: seq<Part>): set<Site> {
    match v
    case Obj(fields) =>
      set k, s | k in fields &&
                 s in MemberBlocks(k, fields[k], path + [Key(k)]) + Blocks(fields[k], path + [Key(k)]) :: s
    case Arr(items) => set i, s | 0 <= i < |items| && s in Blocks(items[i], path + [Index(i)]) :: s
    case _ => {}
  }

  /** The value a path leads to. */
  function At(v: Json, path: seq<Part>): Option<Json>
    decreases |path|
  {
    if path == [] then Some(v)
    else
      match path[0]
      case Key(k) => if v.Obj? && k in v.fields then At(v.fields[k], path[1..]) else None
      case Index(i) => if v.Arr? && i < |v.items| then At(v.items[i], path[1..]) else None
  }

  predicate NamesBlock(p: Part) {
    p == Key("assertions") || p == Key("expect") || p == Key("expect_after") || p == Key("expect_initial") ||
    p == Key("expected")
  }

  /** A path that ends in a block name, or in an element of a list under one. */
  predicate BlockPath(path: seq<Part>) {
    path != [] &&
    (NamesBlock(path[|path| - 1]) || (|path| > 1 && path[|path| - 1].Index? && NamesBlock(path[|path| - 2])))
  }

  ghost predicate IsBlockAt(v: Json, path: seq<Part>, block: Json) {
    BlockPath(path) && block.Obj? && At(v, path) == Some(block)
  }

  lemma AtMember(v: Json, k: string, rest: seq<Part>)
    ensures At(v, [Key(k)] + rest) == if v.Obj? && k in v.fields then At(v.fields[k], rest) else None
  {
    assert ([Key(k)] + rest)[1..] == rest;
  }

  lemma AtElement(v: Json, i: nat, rest: seq<Part>)
    ensures At(v, [Index(i)] + rest) == if v.Arr? && i < |v.items| then At(v.items[i], rest) else None
  {
    assert ([Index(i)] + rest)[1..] == rest;
  }

  lemma BlockPathLonger(p: Part, rest: seq<Part>)
    ensures BlockPath(rest) ==> BlockPath([p] + rest)
    ensures BlockPath([p] + rest) ==>
      BlockPath(rest) || (NamesBlock(p) && (rest == [] || (|rest| == 1 && rest[0].Index?)))
    ensures NamesBlock(p) && (rest == [] || (|rest| == 1 && rest[0].Index?)) ==> BlockPath([p] + rest)
  {
  }

  /** What one member announces, as paths relative to the object that holds it. */
  lemma MemberBlocksExact(v: Json, k: string, prefix: seq<Part>, rest: seq<Part>, block: Json)
    requires v.Obj? && k in v.fields
    ensures Site(prefix + [Key(k)] + rest, block) in MemberBlocks(k, v.fields[k], prefix + [Key(k)]) <==>
      && NamesBlock(Key(k)) && block.Obj? && At(v, [Key(k)] + rest) == Some(block)
      && (rest == [] || (|rest| == 1 && rest[0].Index?))
  {
    var child, path := v.fields[k], prefix + [Key(k)];
    AtMember(v, k, rest);
    assert path + rest == path <==> rest == [] by { assert |path + rest| == |path| + |rest|; }
    if |rest| == 1 && rest[0].Index? {
      AtElement(child, rest[0].i, []);
      assert rest == [Index(rest[0].i)];
    }
    forall i: nat | path + rest == path + [Index(i)] ensures rest == [Index(i)] {
      assert rest == (path + rest)[|path|..] && [Index(i)] == (path + [Index(i)])[|path|..];
    }
  }

  lemma UnderMember(v: Json, k: string, prefix: seq<Part>, s: Site)
    requires v.Obj? && k in v.fields
    requires s in MemberBlocks(k, v.fields[k], prefix + [Key(k)]) ||
      (prefix + [Key(k)] <= s.path && IsBlockAt(v.fields[k], s.path[|prefix| + 1..], s.block))
    ensures prefix <= s.path && IsBlockAt(v, s.path[|prefix|..], s.block)
  {
    hide At, BlockPath;
    var path := prefix + [Key(k)];
    assert path <= s.path;
    var rest := s.path[|path|..];
    assert s.path == path + rest && s.path[|prefix|..] == [Key(k)] + rest;
    MemberBlocksExact(v, k, prefix, rest, s.block);
    AtMember(v, k, rest);
    BlockPathLonger(Key(k), rest);
  }

  lemma UnderElement(v: Json, i: nat, prefix: seq<Part>, s: Site)
    requires v.Arr? && i < |v.items|
    requires prefix + [Index(i)] <= s.path && IsBlockAt(v.items[i], s.path[|prefix| + 1..], s.block)
    ensures prefix <= s.path && IsBlockAt(v, s.path[|prefix|..], s.block)
  {
    hide At, BlockPath;
    var rest := s.path[|prefix| + 1..];
    assert s.path == prefix + [Index(i)] + rest && s.path[|prefix|..] == [Index(i)] + rest;
    AtElement(v, i, rest);
    BlockPathLonger(Index(i), rest);
  }

  /** Everything found is a block where its path says, below the starting path. */
  lemma {:induction false} BlocksSound(v: Json, prefix: seq<Part>, s: Site)
    requires s in Blocks(v, prefix)
    ensures prefix <= s.path && IsBlockAt(v, s.path[|prefix|..], s.block)
    decreases v
  {
    hide MemberBlocks, IsBlockAt;
    if v.Obj? {
      var k :| k in v.fields &&
        s in MemberBlocks(k, v.fields[k], prefix + [Key(k)]) + Blocks(v.fields[k], prefix + [Key(k)]);
      if s in Blocks(v.fields[k], prefix + [Key(k)]) {
        BlocksSound(v.fields[k], prefix + [Key(k)], s);
      }
      UnderMember(v, k, prefix, s);
    } else {
      var i :| 0 <= i < |v.items| && s in Blocks(v.items[i], prefix + [Index(i)]);
      BlocksSound(v.items[i], prefix + [Index(i)], s);
      UnderElement(v, i, prefix, s);
    }
  }

  /** Every object at a block path is found. */
  lemma {:induction false} BlocksComplete(v: Json, prefix: seq<Part>, path: seq<Part>, block: Json)
    requires IsBlockAt(v, path, block)
    ensures Site(prefix + path, block) in Blocks(v, prefix)
    decreases |path|
  {
    var rest := path[1..];
    assert path == [path[0]] + rest;
    BlockPathLonger(path[0], rest);
    assert prefix + path == prefix + [path[0]] + rest;
    match path[0] {
      case Key(k) =>
        AtMember(v, k, rest);
        MemberBlocksExact(v, k, prefix, rest, block);
        if BlockPath(rest) {
          BlocksComplete(v.fields[k], prefix + [Key(k)], rest, block);
        }
        assert Site(prefix + path, block) in
          MemberBlocks(k, v.fields[k], prefix + [Key(k)]) + Blocks(v.fields[k], prefix + [Key(k)]);
      case Index(i) =>
        AtElement(v, i, rest);
        BlocksComplete(v.items[i], prefix + [Index(i)], rest, block);
    }
  }

  lemma BlocksExact(v: Json, s: Site)
    ensures s in Blocks(v, []) <==> IsBlockAt(v, s.path, s.block)
  {
    if s in Blocks(v, []) {
      BlocksSound(v, [], s);
    }
    if IsBlockAt(v, s.path, s.block) {
      BlocksComplete(v, [], s.path, s.block);
      assert [] + s.path == s.path;
    }
  }
}
