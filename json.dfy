/** The JSON document model the converters read and write (`serde_json::Value`). */
module Json {
  import opened Numbers
  import opened Entries

  datatype Value =
    | Null
    | Bool(b: bool)
    | I64(i: Int64)
    | U64(u: UInt64)
    | F64(f: Float64)
    | String(s: string)
    | Array(items: seq<Value>)
      /** A `BTreeMap<String, Value>`, as its entries in iteration order. */
    | Object(entries: seq<(string, Value)>)

  /** Every object in the tree keeps the map invariant (no key twice). */
  predicate WellFormed(v: Value) {
    match v
    case Array(items) => forall i :: 0 <= i < |items| ==> WellFormed(items[i])
    case Object(entries) =>
      DistinctKeys(entries) && forall i :: 0 <= i < |entries| ==> WellFormed(entries[i].1)
    case _ => true
  }
}
