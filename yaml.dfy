/** The YAML document model the converters read and write (`serde_yaml::Value`). */
module Yaml {
  import opened Numbers
  import opened Entries

  datatype Value =
      /** A float, kept as the decimal text it was written with. */
    | Real(text: string)
    | Integer(i: Int64)
    | String(s: string)
    | Boolean(b: bool)
    | Array(items: seq<Value>)
      /** A `BTreeMap<Value, Value>`, as its entries in iteration order. */
    | Hash(entries: seq<(Value, Value)>)
      /** A reference to an anchored node, by the anchor's number. */
    | Alias(index: nat)
    | Null
      /** The parser's marker for a malformed or missing node. */
    | BadValue

  /** Every hash in the tree, keys included, keeps the map invariant. */
  predicate WellFormed(v: Value) {
    match v
    case Array(items) => forall i :: 0 <= i < |items| ==> WellFormed(items[i])
    case Hash(entries) =>
      && DistinctKeys(entries)
      && forall i :: 0 <= i < |entries| ==> WellFormed(entries[i].0) && WellFormed(entries[i].1)
    case _ => true
  }

  /** A tree with a JSON counterpart in shape: no alias, no bad value, and every
      hash key a string. */
  predicate JsonShaped(v: Value) {
    match v
    case Array(items) => forall i :: 0 <= i < |items| ==> JsonShaped(items[i])
    case Hash(entries) =>
      forall i :: 0 <= i < |entries| ==> entries[i].0.String? && JsonShaped(entries[i].1)
    case Alias(_) => false
    case BadValue => false
    case _ => true
  }
}
