/** The reader against the format (MessagePack specification, section "Formats"): what it reads within the data is
    exactly what the bytes stand for, and what the writer takes. */
module MessagePackFormat {
  import opened Common
  import opened Utf8
  import opened MessagePack
  import opened MessagePackProofs

  // ---------------------------------------------------------------- the format

  /** The number that one, two, four or eight bytes spell, the first the most significant. */
  function BigEndian(b: seq<Byte>): nat
    requires |b| == 1 || |b| == 2 || |b| == 4 || |b| == 8
  {
    if |b| == 1 then b[0]
    else if |b| == 2 then b[0] as int * 0x100 + b[1]
    else if |b| == 4 then b[0] as int * 0x100_0000 + b[1] as int * 0x1_0000 + b[2] as int * 0x100 + b[3]
    else
      b[0] as int * 0x100_0000_0000_0000 + b[1] as int * 0x1_0000_0000_0000 + b[2] as int * 0x100_0000_0000 +
      b[3] as int * 0x1_0000_0000 + b[4] as int * 0x100_0000 + b[5] as int * 0x1_0000 + b[6] as int * 0x100 + b[7]
  }

  predicate OverwrittenLater(entries: seq<Entry>, i: nat)
    requires i < |entries|
  {
    exists j | i < j < |entries| :: entries[j].key == entries[i].key
  }

  /** A dictionary's value under a key is the last one listed for it. */
  ghost predicate Assigns(entries: seq<Entry>, m: map<Key, Value>) {
    && (forall e <- entries :: e.key in m)
    && (forall k <- m :: exists e <- entries :: e.key == k)
    && forall i | 0 <= i < |entries| && !OverwrittenLater(entries, i) ::
         entries[i].key in m && m[entries[i].key] == entries[i].value
  }

  /** A value spelled as a key. */
  function KeyValue(k: Key): Value {
    match k
    case NilKey => Nil
    case IntKey(n) => Value.Int(n)
    case TextKey(s) => Value.Str(s)
  }

  predicate StandsForNumber(b: seq<Byte>, n: nat) {
    || (|b| == 1 && b[0] == n < 0x80)
    || (|b| == 2 && b[0] == 0xCC && BigEndian(b[1..]) == n)
    || (|b| == 3 && b[0] == 0xCD && BigEndian(b[1..]) == n)
    || (|b| == 5 && b[0] == 0xCE && BigEndian(b[1..]) == n)
    || (|b| == 9 && b[0] == 0xCF && BigEndian(b[1..]) == n)
  }

  ghost predicate StandsForText(b: seq<Byte>, s: string) {
    || (1 <= |b| <= 32 && b[0] == 0xA0 + (|b| - 1) && Spells(b[1..], s))
    || (|b| >= 2 && b[0] == 0xD9 && b[1] == |b| - 2 && Spells(b[2..], s))
  }

  /** The bytes are one of the forms of the value: nil, fixint, uint 8 to 64, fixstr, str 8, fixarray, fixmap and
      map 16, each of any width that holds it. */
  ghost predicate Stands(b: seq<Byte>, v: Value)
    decreases |b|, 0
  {
    b != [] &&
    match v
    case Nil => b == [0xC0]
    case Int(n) => StandsForNumber(b, n)
    case Str(s) => StandsForText(b, s)
    case List(items) => |items| < 16 && b[0] == 0x90 + |items| && StandForItems(b[1..], items)
    case Dict(m) => exists entries :: Assigns(entries, m) && StandsForMap(b, entries)
  }

  /** A header with the number of entries, and the entries. */
  ghost predicate StandsForMap(b: seq<Byte>, entries: seq<Entry>)
    requires b != []
    decreases |b|, 0, 0
  {
    || (|entries| < 16 && b[0] == 0x80 + |entries| && StandForEntries(b[1..], entries))
    || (|b| >= 3 && b[0] == 0xDE && BigEndian(b[1..3]) == |entries| && StandForEntries(b[3..], entries))
  }

  ghost predicate StandForItems(b: seq<Byte>, items: seq<Value>)
    decreases |b|, 1
  {
    if items == [] then b == []
    else exists k | 0 < k <= |b| :: Stands(b[..k], items[0]) && StandForItems(b[k..], items[1..])
  }

  ghost predicate StandForEntries(b: seq<Byte>, entries: seq<Entry>)
    decreases |b|, 1
  {
    if entries == [] then b == []
    else exists k | 0 < k <= |b| :: StandForEntry(b[..k], entries[0]) && StandForEntries(b[k..], entries[1..])
  }

  ghost predicate StandForEntry(b: seq<Byte>, e: Entry)
    decreases |b|, 0, 1
  {
    exists j | 0 < j < |b| :: Stands(b[..j], KeyValue(e.key)) && Stands(b[j..], e.value)
  }

  // ---------------------------------------------------------------- numbers and dictionaries

  lemma OneMoreByte(b: seq<Byte>, k: nat)
    requires k < |b|
    ensures FromBytes(b[..k + 1]) == FromBytes(b[..k]) * 256 + b[k]
  {
    assert b[..k + 1][..k] == b[..k];
  }

  lemma SpelledBigEndian(b: seq<Byte>)
    requires |b| == 1 || |b| == 2 || |b| == 4 || |b| == 8
    ensures FromBytes(b) == BigEndian(b)
  {
    assert FromBytes(b[..0]) == 0 && b[..|b|] == b;
    hide FromBytes;
    OneMoreByte(b, 0);
    if |b| > 1 {
      OneMoreByte(b, 1);
    }
    if |b| > 2 {
      OneMoreByte(b, 2);
      OneMoreByte(b, 3);
    }
    if |b| > 4 {
      OneMoreByte(b, 4);
      OneMoreByte(b, 5);
      OneMoreByte(b, 6);
      OneMoreByte(b, 7);
    }
  }

  lemma {:induction false} CollectAssigns(entries: seq<Entry>)
    ensures Assigns(entries, Collect(entries))
  {
    hide Assigns;
    if entries == [] {
      NothingAssigned();
    } else {
      var front, last := entries[..|entries| - 1], entries[|entries| - 1];
      CollectAssigns(front);
      AssignsNext(front, last, Collect(front));
      assert entries == front + [last];
    }
  }

  lemma NothingAssigned()
    ensures Assigns([], map[])
  {
  }

  lemma AssignsNext(front: seq<Entry>, last: Entry, m: map<Key, Value>)
    requires Assigns(front, m)
    ensures Assigns(front + [last], m[last.key := last.value])
  {
    var entries, n := front + [last], m[last.key := last.value];
    assert entries[|front|] == last && forall e :: e in entries <==> e in front || e == last;
    forall k | k in n ensures exists e <- entries :: e.key == k {
      if k == last.key {
        assert last in entries;
      } else {
        var e :| e in front && e.key == k;
        assert e in entries;
      }
    }
    forall i | 0 <= i < |entries| && !OverwrittenLater(entries, i)
      ensures entries[i].key in n && n[entries[i].key] == entries[i].value
    {
      if i < |front| {
        assert entries[i] == front[i] && entries[|front|].key != front[i].key;
        assert forall j | i < j < |front| :: entries[j] == front[j];
      }
    }
  }

  lemma {:induction false} LastOfKey(entries: seq<Entry>, k: Key) returns (i: nat)
    requires exists e <- entries :: e.key == k
    ensures i < |entries| && entries[i].key == k && forall j | i < j < |entries| :: entries[j].key != k
  {
    i := |entries| - 1;
    if entries[i].key != k {
      var front := entries[..|entries| - 1];
      var e :| e in entries && e.key == k;
      assert e in front;
      i := LastOfKey(front, k);
    }
  }

  lemma AssignsOne(entries: seq<Entry>, m: map<Key, Value>, n: map<Key, Value>)
    requires Assigns(entries, m) && Assigns(entries, n)
    ensures m == n
  {
    forall k | k in m ensures k in n && m[k] == n[k] {
      var i := LastOfKey(entries, k);
    }
    assert n.Keys <= m.Keys;
  }

  // ---------------------------------------------------------------- what is read is what the bytes stand for

  lemma SliceOfSlice(data: seq<Byte>, pos: nat, next: nat, i: nat, j: nat)
    requires pos <= next <= |data| && i <= j <= next - pos
    ensures data[pos..next][i..j] == data[pos + i..pos + j] == Slice(data, pos + i, j - i)
  {
    var a, b := data[pos..next][i..j], data[pos + i..pos + j];
    assert |a| == |b| && forall k | 0 <= k < |a| :: a[k] == data[pos + i + k] == b[k];
  }

  lemma TailOfSlice(data: seq<Byte>, pos: nat, next: nat, i: nat)
    requires pos <= next <= |data| && i <= next - pos
    ensures data[pos..next][i..] == data[pos + i..next] == Slice(data, pos + i, next - pos - i)
  {
  }

  lemma NumberStands(data: seq<Byte>, pos: nat, width: nat)
    requires pos + 1 + width <= |data| && 0xCC <= data[pos] <= 0xCF && width == Width(data[pos])
    ensures Stands(data[pos..pos + 1 + width], Value.Int(FromBytes(Slice(data, pos + 1, width))))
  {
    var b := data[pos..pos + 1 + width];
    TailOfSlice(data, pos, pos + 1 + width, 1);
    SpelledBigEndian(b[1..]);
    hide FromBytes, BigEndian, Stands;
    assert b[0] == data[pos] && |b| == 1 + width;
    NumberForm(b, FromBytes(Slice(data, pos + 1, width)));
  }

  lemma TextForm(b: seq<Byte>, s: string)
    requires StandsForText(b, s)
    ensures Stands(b, Value.Str(s))
  {
  }

  lemma NumberForm(b: seq<Byte>, n: nat)
    requires StandsForNumber(b, n)
    ensures Stands(b, Value.Int(n))
  {
    hide BigEndian;
  }

  lemma ShortTextStands(data: seq<Byte>, pos: nat, next: nat, s: string)
    requires pos < next <= |data| && next - pos - 1 < 32 && data[pos] == 0xA0 + (next - pos - 1)
    requires Decode(data[pos + 1..next]) == Some(s)
    ensures Stands(data[pos..next], Value.Str(s))
  {
    EncodeDecode(data[pos + 1..next]);
    SpellsExact(s, data[pos + 1..next]);
    hide Encode, Decode, Stands, Spells;
    TailOfSlice(data, pos, next, 1);
    TextForm(data[pos..next], s);
  }

  lemma LongTextStands(data: seq<Byte>, pos: nat, next: nat, s: string)
    requires pos + 1 < next <= |data| && data[pos] == 0xD9 && data[pos + 1] == next - pos - 2
    requires Decode(data[pos + 2..next]) == Some(s)
    ensures Stands(data[pos..next], Value.Str(s))
  {
    EncodeDecode(data[pos + 2..next]);
    SpellsExact(s, data[pos + 2..next]);
    hide Encode, Decode, Stands, Spells;
    TailOfSlice(data, pos, next, 2);
    TextForm(data[pos..next], s);
  }

  lemma ByteStands(data: seq<Byte>, pos: nat)
    requires pos < |data|
    ensures data[pos] == 0xC0 ==> Stands(data[pos..pos + 1], Nil)
    ensures data[pos] < 0x80 ==> Stands(data[pos..pos + 1], Value.Int(data[pos]))
  {
    assert data[pos..pos + 1] == [data[pos]];
  }

  lemma LeafStands(data: seq<Byte>, pos: nat, v: Value, next: nat)
    requires ReadHead(data, pos) == Leaf(Ok(v, next)) && next <= |data|
    ensures Stands(data[pos..next], v)
  {
    hide Stands, Decode, FromBytes;
    ByteStands(data, pos);
    var tag := data[pos];
    if 0xCC <= tag <= 0xCF {
      NumberStands(data, pos, Width(tag));
    } else if 0xA0 <= tag <= 0xBF {
      ShortTextStands(data, pos, next, v.s);
    } else if tag == 0xD9 {
      LongTextStands(data, pos, next, v.s);
    }
  }

  lemma {:induction false} ReadStands(data: seq<Byte>, pos: nat)
    requires Read(data, pos).Ok? && Read(data, pos).next <= |data|
    ensures Stands(data[pos..Read(data, pos).next], Read(data, pos).value)
    decreases Left(data, pos), 0
  {
    hide Stands;
    var r := Read(data, pos);
    match ReadHead(data, pos) {
      case Leaf(result) => LeafStands(data, pos, r.value, r.next);
      case MapOf(count, from) =>
        var entries := ReadPairsStand(data, from, count, []);
        assert [] + entries == entries;
        CollectAssigns(entries);
        MapStands(data, pos, count, from, entries, r.next);
      case ListOf(count, from) =>
        var items := ReadItemsStand(data, from, count, []);
        assert [] + items == items && data[pos..r.next][1..] == data[from..r.next];
        ListStands(data[pos..r.next], items);
    }
  }

  lemma ListStands(b: seq<Byte>, items: seq<Value>)
    requires b != [] && |items| < 16 && b[0] == 0x90 + |items| && StandForItems(b[1..], items)
    ensures Stands(b, List(items))
  {
  }

  lemma MapStands(data: seq<Byte>, pos: nat, count: nat, from: nat, entries: seq<Entry>, next: nat)
    requires ReadHead(data, pos) == MapOf(count, from) && from <= next <= |data| && |entries| == count
    requires StandForEntries(data[from..next], entries) && Assigns(entries, Collect(entries))
    ensures Stands(data[pos..next], Dict(Collect(entries)))
  {
    hide StandForEntries, Assigns, FromBytes, BigEndian;
    var b := data[pos..next];
    if data[pos] == 0xDE {
      SliceOfSlice(data, pos, next, 1, 3);
      TailOfSlice(data, pos, next, 3);
      SpelledBigEndian(b[1..3]);
    } else {
      TailOfSlice(data, pos, next, 1);
    }
    assert StandsForMap(b, entries);
  }

  lemma {:induction false} ReadItemsStand(data: seq<Byte>, pos: nat, count: nat, out: seq<Value>)
    returns (items: seq<Value>)
    requires ReadItems(data, pos, count, out).Ok? && ReadItems(data, pos, count, out).next <= |data|
    ensures var r := ReadItems(data, pos, count, out);
      r.value == out + items && |items| == count && StandForItems(data[pos..r.next], items)
    decreases Left(data, pos), 1 + count
  {
    hide ReadHead, Stands;
    var end := ReadItems(data, pos, count, out).next;
    if count == 0 {
      items := [];
    } else {
      var item, next := Read(data, pos).value, Read(data, pos).next;
      var rest := ReadItemsStand(data, next, count - 1, out + [item]);
      ReadStands(data, pos);
      items := [item] + rest;
      var b := data[pos..end];
      assert b[..next - pos] == data[pos..next] && b[next - pos..] == data[next..end] && items[1..] == rest;
      assert out + [item] + rest == out + items;
    }
  }

  lemma KeyReads(v: Value)
    requires ToKey(v).Some?
    ensures KeyValue(ToKey(v).value) == v
  {
  }

  lemma EntryStands(data: seq<Byte>, pos: nat, mid: nat, next: nat, e: Entry)
    requires pos < mid < next <= |data|
    requires Stands(data[pos..mid], KeyValue(e.key)) && Stands(data[mid..next], e.value)
    ensures StandForEntry(data[pos..next], e)
  {
    hide Stands;
    var b := data[pos..next];
    assert b[..mid - pos] == data[pos..mid] && b[mid - pos..] == data[mid..next];
  }

  lemma {:induction false} ReadPairsStand(data: seq<Byte>, pos: nat, count: nat, out: seq<Entry>)
    returns (entries: seq<Entry>)
    requires ReadPairs(data, pos, count, out).Ok? && ReadPairs(data, pos, count, out).next <= |data|
    ensures var r := ReadPairs(data, pos, count, out);
      r.value == out + entries && |entries| == count && StandForEntries(data[pos..r.next], entries)
    decreases Left(data, pos), 2 + count
  {
    hide ReadHead, Stands, StandForEntry;
    var end := ReadPairs(data, pos, count, out).next;
    if count == 0 {
      entries := [];
    } else {
      var entry, next := ReadPair(data, pos).value, ReadPair(data, pos).next;
      var mid := Read(data, pos).next;
      var rest := ReadPairsStand(data, next, count - 1, out + [entry]);
      ReadStands(data, pos);
      ReadStands(data, mid);
      KeyReads(Read(data, pos).value);
      entries := [entry] + rest;
      EntryStands(data, pos, mid, next, entry);
      var b := data[pos..end];
      assert b[..next - pos] == data[pos..next] && b[next - pos..] == data[next..end] && entries[1..] == rest;
      assert out + [entry] + rest == out + entries;
    }
  }

  // ---------------------------------------------------------------- and the other way round

  lemma SplitHolds(data: seq<Byte>, pos: nat, b: seq<Byte>, k: nat)
    requires Holds(data, pos, b) && k <= |b|
    ensures Holds(data, pos, b[..k]) && Holds(data, pos + k, b[k..])
  {
    assert b == b[..k] + b[k..];
    HoldsParts(data, pos, b[..k], b[k..]);
  }

  lemma HoldsTail(data: seq<Byte>, pos: nat, b: seq<Byte>, k: nat)
    requires Holds(data, pos, b) && k < |b|
    ensures data[pos] == b[0] && data[pos + k] == b[k] && Slice(data, pos + k, |b| - k) == b[k..]
  {
    assert data[pos..pos + |b|][0] == data[pos] && data[pos..pos + |b|][k] == data[pos + k];
    assert data[pos..pos + |b|][k..] == data[pos + k..pos + |b|];
  }

  lemma IntReads(data: seq<Byte>, pos: nat, b: seq<Byte>, n: nat)
    requires Holds(data, pos, b) && StandsForNumber(b, n)
    ensures Read(data, pos) == Ok(Value.Int(n), pos + |b|)
  {
    HoldsTail(data, pos, b, 0);
    if |b| > 1 {
      HoldsTail(data, pos, b, 1);
      SpelledBigEndian(b[1..]);
    }
    hide FromBytes, BigEndian, Holds, Slice;
  }

  lemma TextReads(data: seq<Byte>, pos: nat, b: seq<Byte>, s: string)
    requires Holds(data, pos, b) && StandsForText(b, s)
    ensures Read(data, pos) == Ok(Value.Str(s), pos + |b|)
  {
    hide Encode, Decode, Spells, Slice;
    if |b| <= 32 && b[0] == 0xA0 + (|b| - 1) && Spells(b[1..], s) {
      RawTextHeld(data, pos, b, 1, s);
    } else {
      RawTextHeld(data, pos, b, 2, s);
      HoldsTail(data, pos, b, 1);
    }
  }

  lemma RawTextHeld(data: seq<Byte>, pos: nat, b: seq<Byte>, k: nat, s: string)
    requires Holds(data, pos, b) && 0 < k <= |b| && Spells(b[k..], s)
    ensures data[pos] == b[0] && Decode(Slice(data, pos + k, |b| - k)) == Some(s)
  {
    SpellsExact(s, b[k..]);
    DecodeEncode(s);
    hide Encode, Decode, Spells;
    SplitHolds(data, pos, b, k);
    HoldsTail(data, pos, b, 0);
    assert Slice(data, pos + k, |b| - k) == b[k..];
  }

  lemma {:induction false} StandsReads(data: seq<Byte>, pos: nat, b: seq<Byte>, v: Value)
    requires Holds(data, pos, b) && Stands(b, v)
    ensures Read(data, pos) == Ok(v, pos + |b|)
    decreases |b|, 0
  {
    match v {
      case List(items) =>
        SplitHolds(data, pos, b, 1);
        assert data[pos] == b[0] by { assert data[pos..pos + |b|][0] == data[pos]; }
        ReadHeader(data, pos, |items|);
        ItemsRead(data, pos + 1, b[1..], items, []);
        assert [] + items == items;
      case Dict(m) =>
        var entries :| Assigns(entries, m) && StandsForMap(b, entries);
        CollectAssigns(entries);
        AssignsOne(entries, m, Collect(entries));
        MapReads(data, pos, b, entries);
      case Nil => HoldsTail(data, pos, b, 0);
      case Int(n) => IntReads(data, pos, b, n);
      case Str(s) => TextReads(data, pos, b, s);
    }
  }

  lemma {:induction false} MapReads(data: seq<Byte>, pos: nat, b: seq<Byte>, entries: seq<Entry>)
    requires b != [] && Holds(data, pos, b) && StandsForMap(b, entries)
    ensures Read(data, pos) == Ok(Dict(Collect(entries)), pos + |b|)
    decreases |b|, 0, 0
  {
    hide StandForEntries, FromBytes, BigEndian;
    assert data[pos] == b[0] by { assert data[pos..pos + |b|][0] == data[pos]; }
    assert [] + entries == entries;
    if |entries| < 16 && b[0] == 0x80 + |entries| && StandForEntries(b[1..], entries) {
      SplitHolds(data, pos, b, 1);
      ReadHeader(data, pos, |entries|);
      EntriesRead(data, pos + 1, b[1..], entries, []);
    } else {
      SplitHolds(data, pos, b, 3);
      assert Slice(data, pos + 1, 2) == data[pos..pos + |b|][1..3] == b[1..3];
      SpelledBigEndian(b[1..3]);
      EntriesRead(data, pos + 3, b[3..], entries, []);
    }
  }

  lemma {:induction false} ItemsRead(data: seq<Byte>, pos: nat, b: seq<Byte>, items: seq<Value>, out: seq<Value>)
    requires Holds(data, pos, b) && StandForItems(b, items)
    ensures ReadItems(data, pos, |items|, out) == Ok(out + items, pos + |b|)
    decreases |b|, 1
  {
    hide ReadHead, Stands;
    if items == [] {
      assert out + items == out;
    } else {
      var k :| 0 < k <= |b| && Stands(b[..k], items[0]) && StandForItems(b[k..], items[1..]);
      SplitHolds(data, pos, b, k);
      StandsReads(data, pos, b[..k], items[0]);
      ItemsRead(data, pos + k, b[k..], items[1..], out + [items[0]]);
      assert out + [items[0]] + items[1..] == out + items;
    }
  }

  lemma KeysStand(k: Key)
    ensures ToKey(KeyValue(k)) == Some(k)
  {
  }

  lemma {:induction false} EntryReads(data: seq<Byte>, pos: nat, b: seq<Byte>, e: Entry)
    requires Holds(data, pos, b) && StandForEntry(b, e)
    ensures ReadPair(data, pos) == Ok(e, pos + |b|)
    decreases |b|, 0, 1
  {
    hide ReadHead, Stands, Read;
    var j :| 0 < j < |b| && Stands(b[..j], KeyValue(e.key)) && Stands(b[j..], e.value);
    SplitHolds(data, pos, b, j);
    StandsReads(data, pos, b[..j], KeyValue(e.key));
    StandsReads(data, pos + j, b[j..], e.value);
    KeysStand(e.key);
  }

  lemma {:induction false} EntriesRead(data: seq<Byte>, pos: nat, b: seq<Byte>, entries: seq<Entry>, out: seq<Entry>)
    requires Holds(data, pos, b) && StandForEntries(b, entries)
    ensures ReadPairs(data, pos, |entries|, out) == Ok(out + entries, pos + |b|)
    decreases |b|, 1
  {
    hide ReadHead, Stands, Read, ReadPair, StandForEntry, Holds;
    if entries == [] {
      assert out + entries == out;
    } else {
      var k :| 0 < k <= |b| && StandForEntry(b[..k], entries[0]) && StandForEntries(b[k..], entries[1..]);
      SplitHolds(data, pos, b, k);
      EntryReads(data, pos, b[..k], entries[0]);
      EntriesRead(data, pos + k, b[k..], entries[1..], out + [entries[0]]);
      assert out + [entries[0]] + entries[1..] == out + entries;
    }
  }

  /** Within the data, the reader returns a value exactly when the bytes it consumes stand for it. */
  lemma ReadExact(data: seq<Byte>, pos: nat, v: Value, next: nat)
    ensures Read(data, pos) == Ok(v, next) && next <= |data| <==>
            pos < next <= |data| && Stands(data[pos..next], v)
  {
    hide Read, Stands;
    if Read(data, pos) == Ok(v, next) && next <= |data| {
      ReadStands(data, pos);
    }
    if pos < next <= |data| && Stands(data[pos..next], v) {
      StandsReads(data, pos, data[pos..next], v);
    }
  }

  // ---------------------------------------------------------------- what the writer takes

  /** Numbers of 64 bits, texts of up to 255 bytes, lists and tables of up to 15 entries. */
  predicate Writable(d: Doc) {
    match d
    case Num(n) => 0 <= n <= U64_MAX
    case Chars(s) => |Encode(s)| <= 255
    case Items(items) => |items| <= 15 && forall item <- items :: Writable(item)
    case Table(pairs) => |pairs| <= 15 && forall f <- pairs :: |Encode(f.key)| <= 255 && Writable(f.doc)
  }

  /** A document is written exactly when it is small enough, and then as one of the forms of its value. */
  lemma {:induction false} WriteExact(d: Doc)
    ensures Write(d).Some? <==> Writable(d)
    ensures Write(d).Some? ==> Stands(Write(d).value, ToValue(d))
    decreases d, 1
  {
    hide Stands;
    match d {
      case Num(n) =>
      case Chars(s) =>
      case Items(items) => ItemsWritten(items);
      case Table(pairs) => PairsWritten(pairs);
    }
    if Write(d).Some? {
      var b := Write(d).value;
      assert Holds(b, 0, b) && b[0..|b|] == b;
      ReadsBack(d, b, 0);
      ReadExact(b, 0, ToValue(d), |b|);
    }
  }

  lemma {:induction false} ItemsWritten(items: seq<Doc>)
    ensures WriteItems(items).Some? <==> forall item <- items :: Writable(item)
    decreases items, 0
  {
    hide Write, Writable;
    if items != [] {
      var front, last := items[..|items| - 1], items[|items| - 1];
      ItemsWritten(front);
      WriteExact(last);
      assert forall item :: item in items <==> item in front || item == last;
    }
  }

  lemma {:induction false} PairsWritten(pairs: seq<Field>)
    ensures PairBytes(pairs).Some? <==> forall f <- pairs :: |Encode(f.key)| <= 255 && Writable(f.doc)
    decreases pairs, 0
  {
    hide Write, Writable, Encode;
    if pairs != [] {
      var front, last := pairs[..|pairs| - 1], pairs[|pairs| - 1];
      PairsWritten(front);
      WriteExact(last.doc);
      assert forall f :: f in pairs <==> f in front || f == last;
      if WritePairs(pairs).Some? {
        var all := WritePairs(pairs).value;
        assert all[..|front|] == WritePairs(front).value && all[|front|] == (last.key, Write(last.doc).value);
      }
    }
  }
}
