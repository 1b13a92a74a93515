// Vocabulary shared by every part of the model.
module Common {
  datatype Option<+T> = None | Some(value: T)

  const U64_MAX: int := 0xFFFF_FFFF_FFFF_FFFF

  predicate NoneTwice(names: seq<string>) {
    forall i, j | 0 <= i < j < |names| :: names[i] != names[j]
  }

  function Max(a: int, b: int): int {
    if a < b then b else a
  }
}

module Documents {
  /** A parsed JSON document. Object members carry no order: the modelled code compares,
      looks up and re-encodes objects by key only. Literals without a fraction are `Int`,
      all others `Float`. */
  datatype Json =
    | Null
    | Bool(b: bool)
    | Int(n: int)
    | Float(r: real)
    | Str(s: string)
    | Arr(items: seq<Json>)
    | Obj(fields: map<string, Json>)
}
