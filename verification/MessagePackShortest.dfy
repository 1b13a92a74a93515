/** No byte string the reader accepts in full is shorter than what the writer emits for the same
    value, exactly when the written maps repeat no key. */
module MessagePackShortest {
  import opened Utf8
  import opened MessagePack
  import opened MessagePackProofs

  // ---------------------------------------------------------------- the least size of a value

  function IntSize(n: nat): nat {
    if n < 0x80 then 1 else if n <= 0xFF then 2 else if n <= 0xFFFF then 3 else if n <= 0xFFFF_FFFF then 5 else 9
  }

  function TextSize(s: string): nat {
    if |Encode(s)| < 32 then 1 + |Encode(s)| else 2 + |Encode(s)|
  }

  function KeySize(k: Key): (n: nat)
    ensures 0 < n
  {
    match k
    case NilKey => 1
    case IntKey(n) => IntSize(n)
    case TextKey(s) => TextSize(s)
  }

  ghost function Size(v: Value): (n: nat)
    ensures 0 < n
    decreases v, 1
  {
    match v
    case Nil => 1
    case Int(n) => IntSize(n)
    case Str(s) => TextSize(s)
    case List(items) => 1 + ItemsSize(items)
    case Dict(entries) => 1 + KeysSize(v, entries.Keys)
  }

  ghost function ItemsSize(items: seq<Value>): nat
    decreases items, 0
  {
    if items == [] then 0 else ItemsSize(items[..|items| - 1]) + Size(items[|items| - 1])
  }

  /** The summed size of the entries of a dictionary under some of its keys. */
  ghost function KeysSize(d: Value, keys: set<Key>): nat
    requires d.Dict? && keys <= d.entries.Keys
    decreases d, 0, keys
  {
    if keys == {} then 0
    else
      var k :| k in keys;
      KeySize(k) + Size(d.entries[k]) + KeysSize(d, keys - {k})
  }

  lemma {:induction false} KeysSizeSplit(d: Value, keys: set<Key>, key: Key)
    requires d.Dict? && keys <= d.entries.Keys && key in keys
    ensures KeysSize(d, keys) == KeySize(key) + Size(d.entries[key]) + KeysSize(d, keys - {key})
    decreases keys
  {
    hide Size, KeySize;
    var k :| k in keys && KeysSize(d, keys) == KeySize(k) + Size(d.entries[k]) + KeysSize(d, keys - {k});
    if k != key {
      KeysSizeSplit(d, keys - {k}, key);
      KeysSizeSplit(d, keys - {key}, k);
      assert keys - {k} - {key} == keys - {key} - {k};
    }
  }

  lemma {:induction false} KeysSizeSame(d: Value, e: Value, keys: set<Key>)
    requires d.Dict? && e.Dict? && keys <= d.entries.Keys && keys <= e.entries.Keys
    requires forall k <- keys :: d.entries[k] == e.entries[k]
    ensures KeysSize(d, keys) == KeysSize(e, keys)
    decreases keys
  {
    hide Size, KeySize;
    if keys != {} {
      var k :| k in keys;
      KeysSizeSplit(d, keys, k);
      KeysSizeSplit(e, keys, k);
      KeysSizeSame(d, e, keys - {k});
    }
  }

  ghost function EntriesSize(entries: seq<Entry>): nat {
    if entries == [] then 0
    else
      var last := entries[|entries| - 1];
      EntriesSize(entries[..|entries| - 1]) + KeySize(last.key) + Size(last.value)
  }

  predicate Distinct(entries: seq<Entry>) {
    entries == [] ||
    (Distinct(entries[..|entries| - 1]) &&
     entries[|entries| - 1].key !in Collect(entries[..|entries| - 1]))
  }

  /** Assigning entries one after another loses size exactly when a key is assigned twice. */
  lemma {:induction false} CollectSize(entries: seq<Entry>)
    ensures Size(Dict(Collect(entries))) <= 1 + EntriesSize(entries)
    ensures Size(Dict(Collect(entries))) == 1 + EntriesSize(entries) <==> Distinct(entries)
  {
    hide KeySize;
    if entries != [] {
      var front, last := entries[..|entries| - 1], entries[|entries| - 1];
      CollectSize(front);
      var d, e := Dict(Collect(front)), Dict(Collect(entries));
      var kept := d.entries.Keys - {last.key};
      KeysSizeSplit(e, e.entries.Keys, last.key);
      assert e.entries.Keys - {last.key} == kept;
      KeysSizeSame(d, e, kept);
      if last.key in d.entries {
        KeysSizeSplit(d, d.entries.Keys, last.key);
      } else {
        assert kept == d.entries.Keys;
      }
    }
  }

  // ---------------------------------------------------------------- nothing accepted is smaller

  lemma {:induction false} FromBytesBound(b: seq<Byte>)
    ensures FromBytes(b) < Pow256(|b|)
  {
    if b != [] {
      FromBytesBound(b[..|b| - 1]);
    }
  }

  lemma HeadSize(data: seq<Byte>, pos: nat, v: Value, next: nat)
    requires ReadHead(data, pos) == Leaf(Ok(v, next)) && next <= |data|
    ensures Size(v) <= next - pos
  {
    hide Encode, Decode, FromBytes, ToBytes;
    var tag := data[pos];
    if 0xCC <= tag <= 0xCF {
      Widths();
      FromBytesBound(Slice(data, pos + 1, Width(tag)));
    } else if 0xA0 <= tag <= 0xBF {
      EncodeDecode(Slice(data, pos + 1, tag - 0xA0));
    } else if tag == 0xD9 {
      EncodeDecode(Slice(data, pos + 2, data[pos + 1]));
    }
  }

  /** Whatever the reader accepts within the data takes at least the least size of what it returns. */
  lemma {:induction false} ReadSize(data: seq<Byte>, pos: nat)
    requires Read(data, pos).Ok? && Read(data, pos).next <= |data|
    ensures Size(Read(data, pos).value) <= Read(data, pos).next - pos
    decreases Left(data, pos), 0
  {
    hide ReadHead;
    match ReadHead(data, pos) {
      case Leaf(result) => HeadSize(data, pos, result.value, result.next);
      case MapOf(count, from) =>
        ReadPairsSize(data, from, count, []);
        CollectSize(ReadPairs(data, from, count, []).value);
      case ListOf(count, from) => ReadItemsSize(data, from, count, []);
    }
  }

  lemma KeySizeOf(v: Value)
    requires ToKey(v).Some?
    ensures KeySize(ToKey(v).value) == Size(v)
  {
  }

  lemma {:induction false} ReadPairsSize(data: seq<Byte>, pos: nat, count: nat, out: seq<Entry>)
    requires ReadPairs(data, pos, count, out).Ok? && ReadPairs(data, pos, count, out).next <= |data|
    ensures var r := ReadPairs(data, pos, count, out); EntriesSize(r.value) <= EntriesSize(out) + (r.next - pos)
    decreases Left(data, pos), 2 + count
  {
    hide ReadHead, Size, KeySize;
    if count > 0 {
      var entry, next := ReadPair(data, pos).value, ReadPair(data, pos).next;
      var key := Read(data, pos);
      ReadPairsSize(data, next, count - 1, out + [entry]);
      ReadSize(data, pos);
      ReadSize(data, key.next);
      KeySizeOf(key.value);
      assert (out + [entry])[..|out|] == out;
    }
  }

  lemma {:induction false} ReadItemsSize(data: seq<Byte>, pos: nat, count: nat, out: seq<Value>)
    requires ReadItems(data, pos, count, out).Ok? && ReadItems(data, pos, count, out).next <= |data|
    ensures var r := ReadItems(data, pos, count, out); ItemsSize(r.value) <= ItemsSize(out) + (r.next - pos)
    decreases Left(data, pos), 2 + count
  {
    hide ReadHead, Size;
    if count > 0 {
      var item, next := Read(data, pos).value, Read(data, pos).next;
      ReadItemsSize(data, next, count - 1, out + [item]);
      ReadSize(data, pos);
      assert (out + [item])[..|out|] == out;
    }
  }

  // ---------------------------------------------------------------- what the writer takes

  predicate DistinctKeys(d: Doc) {
    match d
    case Num(_) => true
    case Chars(_) => true
    case Items(items) => forall item <- items :: DistinctKeys(item)
    case Table(pairs) =>
      && KeysDiffer(pairs)
      && (forall field <- pairs :: DistinctKeys(field.doc))
  }

  lemma {:induction false} WriteItemsSize(items: seq<Doc>)
    requires WriteItems(items).Some?
    ensures ItemsSize(ToValues(items)) <= |Join(WriteItems(items).value)|
    ensures ItemsSize(ToValues(items)) == |Join(WriteItems(items).value)| <==>
            forall item <- items :: DistinctKeys(item)
    decreases items, 0
  {
    hide Write, Size, DistinctKeys;
    if items != [] {
      var front, last := items[..|items| - 1], items[|items| - 1];
      var all := WriteItems(items).value;
      assert all[..|all| - 1] == WriteItems(front).value;
      assert ToValues(items)[..|front|] == ToValues(front);
      WriteItemsSize(front);
      WriteSize(last);
      assert forall item :: item in items <==> item in front || item == last;
    }
  }

  lemma {:induction false} WritePairsSize(pairs: seq<Field>)
    requires PairBytes(pairs).Some?
    ensures EntriesSize(ToEntries(pairs)) <= |PairBytes(pairs).value|
    ensures EntriesSize(ToEntries(pairs)) == |PairBytes(pairs).value| <==> forall f <- pairs :: DistinctKeys(f.doc)
    decreases pairs, 0
  {
    if pairs != [] {
      hide Write, Size, DistinctKeys, Text, PairBytes;
      var front, last := pairs[..|pairs| - 1], pairs[|pairs| - 1];
      PairBytesLast(pairs);
      assert ToEntries(pairs)[..|front|] == ToEntries(front);
      WritePairsSize(front);
      WriteSize(last.doc);
      KeyTextSize(last.key);
      assert forall f :: f in pairs <==> f in front || f == last;
    }
  }

  lemma KeyTextSize(key: string)
    requires Text(key).Some?
    ensures |Text(key).value| == KeySize(TextKey(key))
  {
  }

  predicate HasKey(pairs: seq<Field>, key: string) {
    exists f <- pairs :: f.key == key
  }

  lemma KeysDifferLast(front: seq<Field>, last: Field)
    ensures KeysDiffer(front + [last]) <==> KeysDiffer(front) && !HasKey(front, last.key)
  {
    var pairs := front + [last];
    assert pairs[|front|] == last;
    assert forall i :: 0 <= i < |front| ==> pairs[i] == front[i];
  }

  lemma HasKeyLast(front: seq<Field>, last: Field, key: string)
    ensures HasKey(front + [last], key) <==> HasKey(front, key) || last.key == key
  {
    assert last in front + [last];
    assert forall f :: f in front + [last] <==> f in front || f == last;
  }

  lemma {:induction false} CollectedKeys(pairs: seq<Field>, key: string)
    ensures TextKey(key) in Collect(ToEntries(pairs)) <==> HasKey(pairs, key)
  {
    hide ToValue;
    if pairs != [] {
      var front, last := pairs[..|pairs| - 1], pairs[|pairs| - 1];
      assert pairs == front + [last];
      CollectedKeys(front, key);
      HasKeyLast(front, last, key);
      assert ToEntries(pairs)[..|front|] == ToEntries(front);
    }
  }

  lemma {:induction false} DistinctEntries(pairs: seq<Field>)
    ensures Distinct(ToEntries(pairs)) <==> KeysDiffer(pairs)
  {
    hide ToValue, KeysDiffer, HasKey;
    if pairs == [] {
      assert KeysDiffer([]) by { NoKeysDiffer(); }
    } else {
      var front, last := pairs[..|pairs| - 1], pairs[|pairs| - 1];
      assert pairs == front + [last];
      DistinctEntries(front);
      CollectedKeys(front, last.key);
      KeysDifferLast(front, last);
      assert ToEntries(pairs)[..|front|] == ToEntries(front);
    }
  }

  lemma NoKeysDiffer()
    ensures KeysDiffer([])
  {
  }

  /** The writer takes the least size of the value exactly when no written map repeats a key. */
  lemma {:induction false} WriteSize(d: Doc)
    requires Write(d).Some?
    ensures Size(ToValue(d)) <= |Write(d).value|
    ensures Size(ToValue(d)) == |Write(d).value| <==> DistinctKeys(d)
    decreases d, 1
  {
    hide Uint, Text, IntSize, TextSize, Size, ItemsSize, KeysSize, WriteItems, WritePairs, Map, Array;
    match d {
      case Num(n) => NumSize(n);
      case Chars(s) => CharsSize(s);
      case Items(items) =>
        ArraySize(items);
        WriteItemsSize(items);
      case Table(pairs) =>
        TableSize(pairs);
        WritePairsSize(pairs);
    }
  }

  lemma NumSize(n: int)
    requires Uint(n).Some?
    ensures n >= 0 && Size(Value.Int(n)) == |Uint(n).value|
  {
  }

  lemma CharsSize(s: string)
    requires Text(s).Some?
    ensures Size(Value.Str(s)) == |Text(s).value|
  {
    hide Encode;
  }

  lemma ArraySize(items: seq<Doc>)
    requires Write(Items(items)).Some?
    ensures Size(ToValue(Items(items))) == 1 + ItemsSize(ToValues(items))
    ensures |Write(Items(items)).value| == 1 + |Join(WriteItems(items).value)|
  {
    hide ItemsSize, Join, WriteItems, ToValues;
  }

  lemma TableSize(pairs: seq<Field>)
    requires Write(Table(pairs)).Some?
    ensures PairBytes(pairs).Some? && |Write(Table(pairs)).value| == 1 + |PairBytes(pairs).value|
    ensures Size(ToValue(Table(pairs))) <= 1 + EntriesSize(ToEntries(pairs))
    ensures Size(ToValue(Table(pairs))) == 1 + EntriesSize(ToEntries(pairs)) <==> KeysDiffer(pairs)
  {
    DistinctEntries(pairs);
    CollectSize(ToEntries(pairs));
    hide KeysDiffer, Distinct, ToEntries, JoinPairs, WritePairs, KeysSize, EntriesSize, Collect;
  }

  // ---------------------------------------------------------------- repeated keys are waste

  function DropKey(pairs: seq<Field>, key: string): (r: seq<Field>)
    ensures |r| <= |pairs|
    ensures forall f :: f in r <==> f in pairs && f.key != key
  {
    if pairs == [] then []
    else
      var last := pairs[|pairs| - 1];
      DropKey(pairs[..|pairs| - 1], key) + if last.key == key then [] else [last]
  }

  /** The same document with only the last pair of each key kept. */
  function Canonical(d: Doc): Doc {
    match d
    case Num(_) => d
    case Chars(_) => d
    case Items(items) => Items(CanonicalItems(items))
    case Table(pairs) => Table(CanonicalPairs(pairs))
  }

  function CanonicalItems(items: seq<Doc>): (r: seq<Doc>)
    ensures |r| == |items|
  {
    if items == [] then [] else CanonicalItems(items[..|items| - 1]) + [Canonical(items[|items| - 1])]
  }

  function CanonicalPairs(pairs: seq<Field>): (r: seq<Field>)
    ensures |r| <= |pairs|
  {
    if pairs == [] then []
    else
      var last := pairs[|pairs| - 1];
      DropKey(CanonicalPairs(pairs[..|pairs| - 1]), last.key) + [Field(last.key, Canonical(last.doc))]
  }

  lemma {:induction false} PairBytesExist(pairs: seq<Field>)
    ensures PairBytes(pairs).Some? <==> forall f <- pairs :: Text(f.key).Some? && Write(f.doc).Some?
  {
    hide Text, Write;
    if pairs != [] {
      var front, last := pairs[..|pairs| - 1], pairs[|pairs| - 1];
      PairBytesExist(front);
      assert forall f :: f in pairs <==> f in front || f == last;
      if WritePairs(pairs).Some? {
        var all := WritePairs(pairs).value;
        assert all[..|all| - 1] == WritePairs(front).value;
      }
    }
  }

  lemma {:induction false} DropKeyDistinct(pairs: seq<Field>, key: string)
    requires KeysDiffer(pairs)
    ensures KeysDiffer(DropKey(pairs, key))
  {
    if pairs != [] {
      var front, last := pairs[..|pairs| - 1], pairs[|pairs| - 1];
      assert pairs == front + [last];
      KeysDifferLast(front, last);
      DropKeyDistinct(front, key);
      KeysDifferLast(DropKey(front, key), last);
      assert DropKey(pairs, key) == if last.key == key then DropKey(front, key) else DropKey(front, key) + [last];
    }
  }

  lemma CollectLast(pairs: seq<Field>, last: Field)
    ensures Collect(ToEntries(pairs + [last])) == Collect(ToEntries(pairs))[TextKey(last.key) := ToValue(last.doc)]
  {
    hide ToValue;
    assert (pairs + [last])[..|pairs|] == pairs;
    var entries := ToEntries(pairs + [last]);
    assert entries[..|pairs|] == ToEntries(pairs);
  }

  lemma RemoveAfterUpdate(m: map<Key, Value>, k: Key, v: Value, gone: Key)
    ensures m[k := v] - {gone} == if k == gone then m - {gone} else (m - {gone})[k := v]
    ensures (m - {k})[k := v] == m[k := v]
  {
  }

  lemma {:induction false} DropKeyCollects(pairs: seq<Field>, key: string)
    ensures Collect(ToEntries(DropKey(pairs, key))) == Collect(ToEntries(pairs)) - {TextKey(key)}
  {
    hide ToValue, Collect, ToEntries;
    if pairs == [] {
      assert Collect(ToEntries([])) == map[] by { EmptyCollect(); }
    } else {
      var front, last := pairs[..|pairs| - 1], pairs[|pairs| - 1];
      assert pairs == front + [last];
      DropKeyCollects(front, key);
      CollectLast(front, last);
      CollectLast(DropKey(front, key), last);
      RemoveAfterUpdate(Collect(ToEntries(front)), TextKey(last.key), ToValue(last.doc), TextKey(key));
      assert DropKey(pairs, key) == if last.key == key then DropKey(front, key) else DropKey(front, key) + [last];
    }
  }

  lemma EmptyCollect()
    ensures Collect(ToEntries([])) == map[]
  {
  }

  lemma {:induction false} CanonicalItemsSame(items: seq<Doc>)
    requires WriteItems(items).Some?
    ensures WriteItems(CanonicalItems(items)).Some? && ToValues(CanonicalItems(items)) == ToValues(items)
    ensures forall item <- CanonicalItems(items) :: DistinctKeys(item)
    decreases items, 0
  {
    hide Write, DistinctKeys;
    if items != [] {
      var front, last := items[..|items| - 1], items[|items| - 1];
      CanonicalItemsSame(front);
      CanonicalSame(last);
      assert CanonicalItems(items)[..|front|] == CanonicalItems(front);
    }
  }

  ghost predicate Writable(pairs: seq<Field>) {
    forall f <- pairs :: Text(f.key).Some? && Write(f.doc).Some?
  }

  predicate KeysDiffer(pairs: seq<Field>) {
    forall i, j :: 0 <= i < j < |pairs| ==> pairs[i].key != pairs[j].key
  }

  /** Replacing every earlier pair of a key by one last pair collects to the same dictionary. */
  lemma ReplaceCollects(before: seq<Field>, front: seq<Field>, last: Field, end: Field)
    requires Collect(ToEntries(before)) == Collect(ToEntries(front))
    requires end.key == last.key && ToValue(end.doc) == ToValue(last.doc)
    ensures Collect(ToEntries(DropKey(before, last.key) + [end])) == Collect(ToEntries(front + [last]))
  {
    hide ToEntries, Collect, ToValue, DropKey;
    DropKeyCollects(before, last.key);
    CollectLast(DropKey(before, last.key), end);
    CollectLast(front, last);
    RemoveAfterUpdate(Collect(ToEntries(front)), TextKey(last.key), ToValue(last.doc), TextKey(last.key));
  }

  lemma {:induction false} CanonicalKeysDiffer(pairs: seq<Field>)
    ensures KeysDiffer(CanonicalPairs(pairs))
  {
    hide Canonical;
    if pairs != [] {
      var front, last := pairs[..|pairs| - 1], pairs[|pairs| - 1];
      CanonicalKeysDiffer(front);
      DropKeyDistinct(CanonicalPairs(front), last.key);
      KeysDifferLast(DropKey(CanonicalPairs(front), last.key), Field(last.key, Canonical(last.doc)));
    }
  }

  lemma {:induction false} CanonicalPairsSame(pairs: seq<Field>)
    requires Writable(pairs)
    ensures var r := CanonicalPairs(pairs);
      && Writable(r) && (forall f <- r :: DistinctKeys(f.doc))
      && Collect(ToEntries(r)) == Collect(ToEntries(pairs))
    decreases pairs, 0
  {
    hide Text, Write, DistinctKeys, Canonical, ToEntries, Collect, ToValue;
    if pairs != [] {
      var front, last := pairs[..|pairs| - 1], pairs[|pairs| - 1];
      assert pairs == front + [last];
      CanonicalPairsSame(front);
      CanonicalSame(last.doc);
      ReplaceCollects(CanonicalPairs(front), front, last, Field(last.key, Canonical(last.doc)));
    }
  }

  lemma {:induction false} CanonicalSame(d: Doc)
    requires Write(d).Some?
    ensures Write(Canonical(d)).Some? && ToValue(Canonical(d)) == ToValue(d) && DistinctKeys(Canonical(d))
    decreases d, 2
  {
    match d {
      case Num(_) =>
      case Chars(_) =>
      case Items(items) => CanonicalItemsSame(items);
      case Table(pairs) => CanonicalTableSame(pairs);
    }
  }

  lemma {:induction false} CanonicalTableSame(pairs: seq<Field>)
    requires Write(Table(pairs)).Some?
    ensures var r := Table(CanonicalPairs(pairs));
      Write(r).Some? && ToValue(r) == ToValue(Table(pairs)) && DistinctKeys(r)
    decreases pairs, 1
  {
    hide Text, Canonical, ToEntries, Collect, CanonicalPairs;
    PairBytesExist(pairs);
    CanonicalKeysDiffer(pairs);
    CanonicalPairsSame(pairs);
    PairBytesExist(CanonicalPairs(pairs));
  }

  /** No byte string the reader accepts in full for the same value is shorter than the writer's output,
      if and only if no written map repeats a key. */
  lemma ShortestIffKeysDistinct(d: Doc)
    requires Write(d).Some?
    ensures DistinctKeys(d) <==>
            forall data :: Read(data, 0) == Ok(ToValue(d), |data|) ==> |Write(d).value| <= |data|
  {
    WriteSize(d);
    forall data | Read(data, 0) == Ok(ToValue(d), |data|)
      ensures Size(ToValue(d)) <= |data|
    {
      ReadSize(data, 0);
    }
    CanonicalSame(d);
    WriteSize(Canonical(d));
    var data := Write(Canonical(d)).value;
    ReadsBack(Canonical(d), data, 0);
    assert Read(data, 0) == Ok(ToValue(d), |data|) && |data| == Size(ToValue(d));
  }
}
