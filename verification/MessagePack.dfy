/** The fixture generator's MessagePack writer and the independently written reader
    (MessagePack specification, section "Formats"). */
module MessagePack {
  import opened Common
  import opened Utf8

  // ---------------------------------------------------------------- writer

  /** Big-endian bytes of `n`, `width` of them. */
  function ToBytes(n: nat, width: nat): (b: seq<Byte>)
    ensures |b| == width
  {
    if width == 0 then [] else ToBytes(n / 256, width - 1) + [n % 256]
  }

  function FromBytes(b: seq<Byte>): nat {
    if b == [] then 0 else FromBytes(b[..|b| - 1]) * 256 + b[|b| - 1]
  }

  function Uint(n: int): Option<seq<Byte>> {
    if n < 0 then None
    else if n < 0x80 then Some([n])
    else if n <= 0xFF then Some([0xCC] + ToBytes(n, 1))
    else if n <= 0xFFFF then Some([0xCD] + ToBytes(n, 2))
    else if n <= 0xFFFF_FFFF then Some([0xCE] + ToBytes(n, 4))
    else if n <= U64_MAX then Some([0xCF] + ToBytes(n, 8))
    else None
  }

  function Text(s: string): Option<seq<Byte>> {
    var raw := Encode(s);
    if |raw| < 32 then Some([0xA0 + |raw|] + raw)
    else if |raw| <= 0xFF then Some([0xD9] + [|raw|] + raw)
    else None
  }

  function Join(items: seq<seq<Byte>>): seq<Byte> {
    if items == [] then [] else Join(items[..|items| - 1]) + items[|items| - 1]
  }

  function Array(items: seq<seq<Byte>>): Option<seq<Byte>> {
    if |items| < 16 then Some([0x90 + |items|] + Join(items)) else None
  }

  function JoinPairs(pairs: seq<(string, seq<Byte>)>): Option<seq<Byte>> {
    if pairs == [] then Some([])
    else
      var init, (k, v) := JoinPairs(pairs[..|pairs| - 1]), pairs[|pairs| - 1];
      if init.None? || Text(k).None? then None else Some(init.value + Text(k).value + v)
  }

  function Map(pairs: seq<(string, seq<Byte>)>): Option<seq<Byte>> {
    var body := JoinPairs(pairs);
    if |pairs| < 16 && body.Some? then Some([0x80 + |pairs|] + body.value) else None
  }

  /** What callers compose out of the four writers. */
  datatype Doc =
    | Num(n: int)
    | Chars(s: string)
    | Items(items: seq<Doc>)
    | Table(pairs: seq<Field>)

  datatype Field = Field(key: string, doc: Doc)

  function Write(d: Doc): Option<seq<Byte>> {
    match d
    case Num(n) => Uint(n)
    case Chars(s) => Text(s)
    case Items(items) =>
      var written := WriteItems(items);
      if written.None? then None else Array(written.value)
    case Table(pairs) =>
      var written := WritePairs(pairs);
      if written.None? then None else Map(written.value)
  }

  function WriteItems(items: seq<Doc>): (r: Option<seq<seq<Byte>>>)
    ensures r.Some? ==> |r.value| == |items|
  {
    if items == [] then Some([])
    else
      var init, last := WriteItems(items[..|items| - 1]), Write(items[|items| - 1]);
      if init.None? || last.None? then None else Some(init.value + [last.value])
  }

  function WritePairs(pairs: seq<Field>): (r: Option<seq<(string, seq<Byte>)>>)
    ensures r.Some? ==> |r.value| == |pairs|
  {
    if pairs == [] then Some([])
    else
      var field := pairs[|pairs| - 1];
      var init, last := WritePairs(pairs[..|pairs| - 1]), Write(field.doc);
      if init.None? || last.None? then None else Some(init.value + [(field.key, last.value)])
  }

  // ---------------------------------------------------------------- reader

  datatype Key = NilKey | IntKey(n: nat) | TextKey(s: string)
  datatype Value = Nil | Int(n: nat) | Str(s: string) | List(items: seq<Value>) | Dict(entries: map<Key, Value>)

  datatype Entry = Entry(key: Key, value: Value)

  datatype Error = OutOfData | BadText | UnhashableKey | UnexpectedTag(tag: Byte)
  datatype Result<T> = Ok(value: T, next: nat) | Fail(error: Error)

  function ToKey(v: Value): Option<Key> {
    match v
    case Nil => Some(NilKey)
    case Int(n) => Some(IntKey(n))
    case Str(s) => Some(TextKey(s))
    case _ => None
  }

  /** A slice that silently stops at the end of the data. */
  function Slice(data: seq<Byte>, pos: nat, length: nat): seq<Byte>
    requires pos <= |data|
  {
    if pos + length <= |data| then data[pos..pos + length] else data[pos..]
  }

  ghost function Left(data: seq<Byte>, pos: nat): nat {
    if pos < |data| then |data| - pos else 0
  }

  function Width(tag: Byte): nat
    requires 0xCC <= tag <= 0xCF
  {
    if tag == 0xCC then 1 else if tag == 0xCD then 2 else if tag == 0xCE then 4 else 8
  }

  function ReadText(data: seq<Byte>, pos: nat, length: nat): (r: Result<Value>)
    requires pos <= |data|
    ensures r.Ok? ==> r.next == pos + length
  {
    var text := Decode(Slice(data, pos, length));
    if text.None? then Fail(BadText) else Ok(Value.Str(text.value), pos + length)
  }

  /** The dictionary that assigning the entries one after another leaves. */
  function Collect(entries: seq<Entry>): map<Key, Value> {
    if entries == [] then map[]
    else
      var last := entries[|entries| - 1];
      Collect(entries[..|entries| - 1])[last.key := last.value]
  }

  function WrapPairs(r: Result<seq<Entry>>): Result<Value> {
    match r
    case Ok(entries, next) => Ok(Dict(Collect(entries)), next)
    case Fail(e) => Fail(e)
  }

  function WrapItems(r: Result<seq<Value>>): Result<Value> {
    match r
    case Ok(items, next) => Ok(List(items), next)
    case Fail(e) => Fail(e)
  }

  /** What the tag at a position announces: a finished value, or so many entries from a position on. */
  datatype Head = Leaf(result: Result<Value>) | MapOf(count: nat, pos: nat) | ListOf(count: nat, pos: nat)

  function ReadHead(data: seq<Byte>, start: nat): (h: Head)
    ensures !h.Leaf? ==> start < h.pos && start < |data|
    ensures h.Leaf? && h.result.Ok? ==> start < h.result.next && start < |data|
  {
    if start >= |data| then Leaf(Fail(OutOfData))
    else
      var tag, pos := data[start], start + 1;
      if tag == 0xC0 then Leaf(Ok(Nil, pos))
      else if tag < 0x80 then Leaf(Ok(Value.Int(tag), pos))
      else if tag <= 0x8F then MapOf(tag - 0x80, pos)
      else if tag == 0xDE then MapOf(FromBytes(Slice(data, pos, 2)), pos + 2)
      else if tag <= 0x9F then ListOf(tag - 0x90, pos)
      else if tag <= 0xBF then Leaf(ReadText(data, pos, tag - 0xA0))
      else if tag == 0xD9 then
        Leaf(if pos >= |data| then Fail(OutOfData) else ReadText(data, pos + 1, data[pos]))
      else if 0xCC <= tag <= 0xCF then
        Leaf(Ok(Value.Int(FromBytes(Slice(data, pos, Width(tag)))), pos + Width(tag)))
      else Leaf(Fail(UnexpectedTag(tag)))
  }

  function Read(data: seq<Byte>, start: nat): (r: Result<Value>)
    ensures r.Ok? ==> start < r.next && start < |data|
    decreases Left(data, start), 0
  {
    match ReadHead(data, start)
    case Leaf(result) => result
    case MapOf(count, pos) => WrapPairs(ReadPairs(data, pos, count, []))
    case ListOf(count, pos) => WrapItems(ReadItems(data, pos, count, []))
  }

  function ReadPair(data: seq<Byte>, pos: nat): (r: Result<Entry>)
    ensures r.Ok? ==> pos < r.next
    decreases Left(data, pos), 1
  {
    var key := Read(data, pos);
    if key.Fail? then Fail(key.error)
    else
      var value := Read(data, key.next);
      if value.Fail? then Fail(value.error)
      else if ToKey(key.value).None? then Fail(UnhashableKey)
      else Ok(Entry(ToKey(key.value).value, value.value), value.next)
  }

  /** `count` more key/value pairs, appended to `out` in reading order. */
  function ReadPairs(data: seq<Byte>, pos: nat, count: nat, out: seq<Entry>): (r: Result<seq<Entry>>)
    ensures r.Ok? ==> pos <= r.next
    decreases Left(data, pos), 2 + count
  {
    if count == 0 then Ok(out, pos)
    else
      match ReadPair(data, pos)
      case Fail(e) => Fail(e)
      case Ok(entry, next) => ReadPairs(data, next, count - 1, out + [entry])
  }

  function ReadItems(data: seq<Byte>, pos: nat, count: nat, out: seq<Value>): (r: Result<seq<Value>>)
    ensures r.Ok? ==> pos <= r.next
    decreases Left(data, pos), 1 + count
  {
    if count == 0 then Ok(out, pos)
    else
      match Read(data, pos)
      case Fail(e) => Fail(e)
      case Ok(item, next) => ReadItems(data, next, count - 1, out + [item])
  }

  /** The reader as it runs: a position moved forward, a dictionary or list filled in a loop. */
  method Unpack(data: seq<Byte>, start: nat) returns (r: Result<Value>)
    ensures r == Read(data, start)
    decreases Left(data, start), 0
  {
    if start >= |data| {
      return Fail(OutOfData);
    }
    var tag, pos := data[start], start + 1;
    if tag == 0xC0 {
      return Ok(Nil, pos);
    }
    if tag < 0x80 {
      return Ok(Value.Int(tag), pos);
    }
    if tag <= 0x8F || tag == 0xDE {
      var count: nat := tag - 0x80;
      if tag == 0xDE {
        count := FromBytes(Slice(data, pos, 2));
        pos := pos + 2;
      }
      r := UnpackPairs(data, pos, count);
      return;
    }
    if tag <= 0x9F {
      var items := UnpackItems(data, pos, tag - 0x90);
      return WrapItems(items);
    }
    if tag <= 0xBF {
      return ReadText(data, pos, tag - 0xA0);
    }
    if tag == 0xD9 {
      if pos >= |data| {
        return Fail(OutOfData);
      }
      return ReadText(data, pos + 1, data[pos]);
    }
    if 0xCC <= tag <= 0xCF {
      return Ok(Value.Int(FromBytes(Slice(data, pos, Width(tag)))), pos + Width(tag));
    }
    r := Fail(UnexpectedTag(tag));
  }

  method UnpackPairs(data: seq<Byte>, start: nat, count: nat) returns (r: Result<Value>)
    ensures r == WrapPairs(ReadPairs(data, start, count, []))
    decreases Left(data, start), 2 + count
  {
    var pos := start;
    var out: map<Key, Value> := map[];
    ghost var entries: seq<Entry> := [];
    for done := 0 to count
      invariant start <= pos && out == Collect(entries)
      invariant ReadPairs(data, pos, count - done, entries) == ReadPairs(data, start, count, [])
    {
      var key := Unpack(data, pos);
      if key.Fail? {
        return Fail(key.error);
      }
      var value := Unpack(data, key.next);
      if value.Fail? {
        return Fail(value.error);
      }
      if ToKey(key.value).None? {
        return Fail(UnhashableKey);
      }
      ghost var entry := Entry(ToKey(key.value).value, value.value);
      assert ReadPair(data, pos) == Ok(entry, value.next);
      assert (entries + [entry])[..|entries|] == entries;
      out := out[ToKey(key.value).value := value.value];
      entries := entries + [entry];
      pos := value.next;
    }
    r := Ok(Dict(out), pos);
  }

  method UnpackItems(data: seq<Byte>, start: nat, count: nat) returns (r: Result<seq<Value>>)
    ensures r == ReadItems(data, start, count, [])
    decreases Left(data, start), 1 + count
  {
    var pos := start;
    var out: seq<Value> := [];
    for done := 0 to count
      invariant start <= pos
      invariant ReadItems(data, pos, count - done, out) == ReadItems(data, start, count, [])
    {
      var item := Unpack(data, pos);
      ghost var left := count - done;
      assert left > 0;
      if item.Fail? {
        return Fail(item.error);
      }
      out := out + [item.value];
      pos := item.next;
    }
    r := Ok(out, pos);
  }
}
