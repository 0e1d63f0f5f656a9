/** The decoded JSON values the executor reads from bpftrace's `-f json`
    output, with the lookups it performs on them. Indexing follows
    `serde_json`: a missing member, an index past the end, or a lookup on a
    value of the wrong kind yields `Null` instead of failing. */
module JsonValue {
  import opened Wrappers

  /** A JSON number: an integer, or any other number known by its text. */
  datatype Number = Int(value: int) | Float(text: string)

  datatype Json =
    | Null
    | Bool(b: bool)
    | Num(n: Number)
    | Str(s: string)
    | Arr(items: seq<Json>)
    | Obj(fields: map<string, Json>)

  /** `v[key]`: the member of an object, `Null` otherwise. */
  function Member(v: Json, key: string): (r: Json)
    ensures r != Null ==> v.Obj? && key in v.fields && r == v.fields[key]
    ensures v.Obj? && key in v.fields ==> r == v.fields[key]
  {
    if v.Obj? && key in v.fields then v.fields[key] else Null
  }

  /** `v[i]`: an element of an array, `Null` otherwise. */
  function Element(v: Json, i: nat): (r: Json)
    ensures r != Null ==> v.Arr? && i < |v.items| && r == v.items[i]
    ensures v.Arr? && i < |v.items| ==> r == v.items[i]
  {
    if v.Arr? && i < |v.items| then v.items[i] else Null
  }

  /** One past the largest `u64`. */
  const U64Limit: int := 0x1_0000_0000_0000_0000

  /** `as_u64`: the value of an integer that fits in 64 unsigned bits. */
  function AsU64(v: Json): (r: Option<nat>)
    ensures r.Some? <==> v.Num? && v.n.Int? && 0 <= v.n.value < U64Limit
    ensures r.Some? ==> r.value == v.n.value
  {
    if v.Num? && v.n.Int? && 0 <= v.n.value < U64Limit then Some(v.n.value as nat) else None
  }
}
