/** The JSON-like values a document holds. */
module Values {
  import opened ByteCodec

  datatype Value =
    | Null
    | Bool(b: bool)
    | Num(n: int)
    | Str(s: Bytes)
    | Arr(items: seq<Value>)
    | Obj(fields: map<Bytes, Value>)

  type Doc = map<Bytes, Value>

  const ID_FIELD: Bytes := [95, 105, 100] // "_id"

  /** A shallow merge of patch and removals; a patch never changes the id. */
  function Patched(d: Doc, patch: Doc, remove: set<Bytes>): Doc
  {
    (d + (patch - {ID_FIELD})) - remove
  }
}
