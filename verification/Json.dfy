/** A decoded JSON document. */
module Json {
  datatype Json =
    | Null
    | Bool(b: bool)
    | Num(n: real)
    | Str(s: string)
    | Arr(items: seq<Json>)
    | Obj(fields: map<string, Json>)

  /** m[k] of a Go map: a missing key reads as nil, like a null. */
  function Get(m: map<string, Json>, k: string): Json {
    if k in m then m[k] else Null
  }
}
