/** The reader undoes the writer, the writer is self-delimiting, and no accepted encoding of a
    value is shorter than the writer's. */
module MessagePackProofs {
  import opened Common
  import opened Utf8
  import opened MessagePack

  // ---------------------------------------------------------------- the value a document denotes

  function ToValue(d: Doc): Value {
    match d
    case Num(n) => Value.Int(if n < 0 then 0 else n)
    case Chars(s) => Value.Str(s)
    case Items(items) => List(ToValues(items))
    case Table(pairs) => Dict(Collect(ToEntries(pairs)))
  }

  function ToValues(items: seq<Doc>): (r: seq<Value>)
    ensures |r| == |items|
  {
    if items == [] then [] else ToValues(items[..|items| - 1]) + [ToValue(items[|items| - 1])]
  }

  function ToEntries(pairs: seq<Field>): (r: seq<Entry>)
    ensures |r| == |pairs|
  {
    if pairs == [] then []
    else
      var field := pairs[|pairs| - 1];
      ToEntries(pairs[..|pairs| - 1]) + [Entry(TextKey(field.key), ToValue(field.doc))]
  }

  // ---------------------------------------------------------------- reading back

  ghost predicate Holds(data: seq<Byte>, pos: nat, b: seq<Byte>) {
    pos + |b| <= |data| && data[pos..pos + |b|] == b
  }

  lemma HoldsParts(data: seq<Byte>, pos: nat, a: seq<Byte>, b: seq<Byte>)
    requires Holds(data, pos, a + b)
    ensures Holds(data, pos, a) && Holds(data, pos + |a|, b)
  {
    assert a == (a + b)[..|a|] && b == (a + b)[|a|..];
    assert data[pos..pos + |a|] == data[pos..pos + |a + b|][..|a|];
    assert data[pos + |a|..pos + |a| + |b|] == data[pos..pos + |a + b|][|a|..];
  }

  lemma HoldsByte(data: seq<Byte>, pos: nat, x: Byte, b: seq<Byte>)
    requires Holds(data, pos, [x] + b)
    ensures pos < |data| && data[pos] == x && Holds(data, pos + 1, b)
  {
    HoldsParts(data, pos, [x], b);
    assert data[pos] == data[pos..pos + 1][0];
  }

  function Pow256(width: nat): nat {
    if width == 0 then 1 else Pow256(width - 1) * 256
  }

  lemma {:induction false} BytesRoundTrip(n: nat, width: nat)
    requires n < Pow256(width)
    ensures FromBytes(ToBytes(n, width)) == n
  {
    if width > 0 {
      BytesRoundTrip(n / 256, width - 1);
      var b := ToBytes(n, width);
      assert b[..|b| - 1] == ToBytes(n / 256, width - 1);
    }
  }

  lemma Widths()
    ensures Pow256(1) == 0x100 && Pow256(2) == 0x1_0000 && Pow256(4) == 0x1_0000_0000
    ensures Pow256(8) == U64_MAX + 1
  {
    assert Pow256(2) == Pow256(1) * 256;
    assert Pow256(3) == Pow256(2) * 256;
    assert Pow256(4) == Pow256(3) * 256;
    assert Pow256(5) == Pow256(4) * 256;
    assert Pow256(6) == Pow256(5) * 256;
    assert Pow256(7) == Pow256(6) * 256;
    assert Pow256(8) == Pow256(7) * 256;
  }

  lemma UintReadsBack(n: int, data: seq<Byte>, pos: nat)
    requires Uint(n).Some? && Holds(data, pos, Uint(n).value)
    ensures Read(data, pos) == Ok(Value.Int(n), pos + |Uint(n).value|)
  {
    if n < 0x80 {
      assert Uint(n).value == [n] + [];
      HoldsByte(data, pos, n, []);
    } else {
      Widths();
      var tag: Byte :=
        if n <= 0xFF then 0xCC else if n <= 0xFFFF then 0xCD else if n <= 0xFFFF_FFFF then 0xCE else 0xCF;
      BytesRoundTrip(n, Width(tag));
      assert Uint(n).value == [tag] + ToBytes(n, Width(tag));
      HoldsByte(data, pos, tag, ToBytes(n, Width(tag)));
      assert Slice(data, pos + 1, Width(tag)) == ToBytes(n, Width(tag));
    }
  }

  lemma TextReadsBack(s: string, data: seq<Byte>, pos: nat)
    requires Text(s).Some? && Holds(data, pos, Text(s).value)
    ensures Read(data, pos) == Ok(Value.Str(s), pos + |Text(s).value|)
  {
    var raw := Encode(s);
    DecodeEncode(s);
    if |raw| < 32 {
      HoldsByte(data, pos, 0xA0 + |raw|, raw);
      assert Slice(data, pos + 1, |raw|) == raw;
    } else {
      assert [0xD9] + [|raw|] + raw == [0xD9] + ([|raw|] + raw);
      HoldsByte(data, pos, 0xD9, [|raw|] + raw);
      HoldsByte(data, pos + 1, |raw|, raw);
      assert Slice(data, pos + 2, |raw|) == raw;
    }
  }

  lemma {:induction false} ItemsReadBack(items: seq<Doc>, data: seq<Byte>, pos: nat, count: nat)
    requires |items| <= count
    requires WriteItems(items).Some? && Holds(data, pos, Join(WriteItems(items).value))
    ensures ReadItems(data, pos, count, []) ==
            ReadItems(data, pos + |Join(WriteItems(items).value)|, count - |items|, ToValues(items))
    decreases items, 0
  {
    hide ReadHead, Write;
    if items != [] {
      var front, last := items[..|items| - 1], items[|items| - 1];
      var body, tail := Join(WriteItems(front).value), Write(last).value;
      var all := WriteItems(items).value;
      assert all[..|all| - 1] == WriteItems(front).value;
      HoldsParts(data, pos, body, tail);
      ItemsReadBack(front, data, pos, count);
      ReadsBack(last, data, pos + |body|);
    }
  }

  lemma ReadHeader(data: seq<Byte>, pos: nat, count: nat)
    requires pos < |data| && count < 16
    ensures data[pos] == 0x90 + count ==> Read(data, pos) == WrapItems(ReadItems(data, pos + 1, count, []))
    ensures data[pos] == 0x80 + count ==> Read(data, pos) == WrapPairs(ReadPairs(data, pos + 1, count, []))
  {
  }

  /** The body of a written map, before its header byte. */
  function PairBytes(pairs: seq<Field>): Option<seq<Byte>> {
    if WritePairs(pairs).None? then None else JoinPairs(WritePairs(pairs).value)
  }

  lemma PairBytesLast(pairs: seq<Field>)
    requires pairs != [] && PairBytes(pairs).Some?
    ensures
      var front, last := pairs[..|pairs| - 1], pairs[|pairs| - 1];
      && PairBytes(front).Some? && Text(last.key).Some? && Write(last.doc).Some?
      && PairBytes(pairs).value == PairBytes(front).value + (Text(last.key).value + Write(last.doc).value)
  {
    var front, last := pairs[..|pairs| - 1], pairs[|pairs| - 1];
    var all := WritePairs(pairs).value;
    assert all[..|all| - 1] == WritePairs(front).value && all[|all| - 1] == (last.key, Write(last.doc).value);
    var body, key, tail := PairBytes(front).value, Text(last.key).value, Write(last.doc).value;
    assert body + key + tail == body + (key + tail);
  }

  lemma ReadPairsStep(data: seq<Byte>, pos: nat, count: nat, mid: nat, left: nat, out: seq<Entry>, entry: Entry,
                      next: nat)
    requires ReadPairs(data, pos, count, []) == ReadPairs(data, mid, left, out)
    requires 0 < left && ReadPair(data, mid) == Ok(entry, next)
    ensures ReadPairs(data, pos, count, []) == ReadPairs(data, next, left - 1, out + [entry])
  {
    hide ReadPair;
  }

  lemma {:induction false} PairsReadBack(pairs: seq<Field>, data: seq<Byte>, pos: nat, count: nat)
    requires |pairs| <= count && PairBytes(pairs).Some? && Holds(data, pos, PairBytes(pairs).value)
    ensures ReadPairs(data, pos, count, []) ==
            ReadPairs(data, pos + |PairBytes(pairs).value|, count - |pairs|, ToEntries(pairs))
    decreases pairs, 0
  {
    hide ReadPair, ReadPairs, Text, Write;
    if pairs != [] {
      var front, last := pairs[..|pairs| - 1], pairs[|pairs| - 1];
      PairBytesLast(pairs);
      var body, pair := PairBytes(front).value, Text(last.key).value + Write(last.doc).value;
      HoldsParts(data, pos, body, pair);
      PairsReadBack(front, data, pos, count);
      FieldReadsBack(last, data, pos + |body|);
      ReadPairsStep(data, pos, count, pos + |body|, count - |front|, ToEntries(front),
                    Entry(TextKey(last.key), ToValue(last.doc)), pos + |body| + |pair|);
    }
  }

  lemma FieldReadsBack(field: Field, data: seq<Byte>, pos: nat)
    requires Text(field.key).Some? && Write(field.doc).Some?
    requires Holds(data, pos, Text(field.key).value + Write(field.doc).value)
    ensures ReadPair(data, pos) == Ok(Entry(TextKey(field.key), ToValue(field.doc)),
                                      pos + |Text(field.key).value + Write(field.doc).value|)
    decreases field, 3
  {
    hide ReadHead, Text;
    var key, tail := Text(field.key).value, Write(field.doc).value;
    HoldsParts(data, pos, key, tail);
    TextReadsBack(field.key, data, pos);
    ReadsBack(field.doc, data, pos + |key|);
  }

  lemma ItemsDocReadsBack(items: seq<Doc>, data: seq<Byte>, pos: nat)
    requires Write(Items(items)).Some? && Holds(data, pos, Write(Items(items)).value)
    ensures Read(data, pos) == Ok(ToValue(Items(items)), pos + |Write(Items(items)).value|)
    decreases items, 1
  {
    HoldsByte(data, pos, 0x90 + |items|, Join(WriteItems(items).value));
    ReadHeader(data, pos, |items|);
    ItemsReadBack(items, data, pos + 1, |items|);
  }

  lemma TableDocReadsBack(pairs: seq<Field>, data: seq<Byte>, pos: nat)
    requires Write(Table(pairs)).Some? && Holds(data, pos, Write(Table(pairs)).value)
    ensures Read(data, pos) == Ok(ToValue(Table(pairs)), pos + |Write(Table(pairs)).value|)
    decreases pairs, 1
  {
    HoldsByte(data, pos, 0x80 + |pairs|, PairBytes(pairs).value);
    ReadHeader(data, pos, |pairs|);
    PairsReadBack(pairs, data, pos + 1, |pairs|);
  }

  /** Wherever the writer's output stands in the data, reading there returns the value it denotes and
      the position just past it. */
  lemma {:induction false} ReadsBack(d: Doc, data: seq<Byte>, pos: nat)
    requires Write(d).Some? && Holds(data, pos, Write(d).value)
    ensures Read(data, pos) == Ok(ToValue(d), pos + |Write(d).value|)
    decreases d, 2
  {
    match d {
      case Num(n) => UintReadsBack(n, data, pos);
      case Chars(s) => TextReadsBack(s, data, pos);
      case Items(items) => ItemsDocReadsBack(items, data, pos);
      case Table(pairs) => TableDocReadsBack(pairs, data, pos);
    }
  }

  /** Two writable documents whose outputs start the same data denote the same value. */
  lemma WriteIsSelfDelimiting(d: Doc, e: Doc, rest: seq<Byte>, rest': seq<Byte>)
    requires Write(d).Some? && Write(e).Some? && Write(d).value + rest == Write(e).value + rest'
    ensures ToValue(d) == ToValue(e) && Write(d).value == Write(e).value && rest == rest'
  {
    var data := Write(d).value + rest;
    assert Holds(data, 0, Write(d).value) && Holds(data, 0, Write(e).value);
    ReadsBack(d, data, 0);
    ReadsBack(e, data, 0);
    assert rest == data[|Write(d).value|..] && rest' == data[|Write(e).value|..];
  }
}
