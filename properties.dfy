/** What the two conversions promise, proved about their specification functions
    `Jamal.YamlOf` and `Jamal.JsonOf` (and so, through the methods' postconditions,
    about `Jamal.ToYaml` and `Jamal.ToJson`). */
module JamalProperties {
  import opened Wrappers
  import opened Numbers
  import opened Entries
  import Json
  import Yaml
  import opened Jamal

  // ---------------------------------------------------------------------
  // JSON to YAML

  /** `to_yaml` never fails: no arm returns an error, and the `try!`s only pass
      on their children's results, which are never errors either. */
  lemma {:induction false} YamlOfTotal(json: Json.Value, format: FloatFormatter)
    ensures YamlOf(json, format).Ok?
  {
    match json
    case Array(items) =>
      var results := seq(|items|, i requires 0 <= i < |items| => YamlOf(items[i], format));
      forall i | 0 <= i < |items| ensures results[i].Ok? {
        YamlOfTotal(items[i], format);
      }
      CollectOk(results);
    case Object(entries) =>
      var results := seq(|entries|, i requires 0 <= i < |entries| =>
        YamlEntryOf(entries[i].0, YamlOf(entries[i].1, format)));
      forall i | 0 <= i < |entries| ensures results[i].Ok? {
        YamlOfTotal(entries[i].1, format);
      }
      CollectOk(results);
    case _ =>
  }

  /** The scalar arms: one-to-one, except that a `u64` is reinterpreted as an
      `i64` (wrapping above 2^63 - 1) and a float becomes its decimal text. */
  lemma YamlOfScalars(b: bool, i: Int64, u: UInt64, f: Float64, s: string, format: FloatFormatter)
    ensures YamlOf(Json.Null, format) == Ok(Yaml.Null)
    ensures YamlOf(Json.Bool(b), format) == Ok(Yaml.Boolean(b))
    ensures YamlOf(Json.I64(i), format) == Ok(Yaml.Integer(i))
    ensures YamlOf(Json.U64(u), format) == Ok(Yaml.Integer(if u <= MaxInt64 then u else u - Modulus64))
    ensures YamlOf(Json.F64(f), format) == Ok(Yaml.Real(format(f)))
    ensures YamlOf(Json.String(s), format) == Ok(Yaml.String(s))
  {
  }

  /** An array is converted element by element, in order. */
  lemma YamlOfArray(items: seq<Json.Value>, format: FloatFormatter)
    ensures YamlOf(Json.Array(items), format).Ok?
    ensures
      var yaml := YamlOf(Json.Array(items), format).value;
      && yaml.Array?
      && |yaml.items| == |items|
      && forall i :: 0 <= i < |items| ==> YamlOf(items[i], format) == Ok(yaml.items[i])
  {
    var results := seq(|items|, i requires 0 <= i < |items| => YamlOf(items[i], format));
    forall i | 0 <= i < |items| ensures results[i].Ok? {
      YamlOfTotal(items[i], format);
    }
    CollectOk(results);
  }

  /** An object becomes a hash whose keys are exactly its keys, each wrapped as
      a YAML string, with no key twice; since an object's keys are distinct,
      entry `i` of the hash is entry `i` of the object with its value converted. */
  lemma YamlOfObject(entries: seq<(string, Json.Value)>, format: FloatFormatter)
    ensures YamlOf(Json.Object(entries), format).Ok?
    ensures
      var yaml := YamlOf(Json.Object(entries), format).value;
      && yaml.Hash?
      && KeySet(yaml.entries) == (set k | k in KeySet(entries) :: Yaml.String(k))
      && DistinctKeys(yaml.entries)
      && (DistinctKeys(entries) ==>
          && |yaml.entries| == |entries|
          && forall i :: 0 <= i < |entries| ==>
            && yaml.entries[i].0 == Yaml.String(entries[i].0)
            && YamlOf(entries[i].1, format) == Ok(yaml.entries[i].1))
  {
    var results := seq(|entries|, i requires 0 <= i < |entries| =>
      YamlEntryOf(entries[i].0, YamlOf(entries[i].1, format)));
    forall i | 0 <= i < |entries| ensures results[i].Ok? {
      YamlOfTotal(entries[i].1, format);
    }
    CollectOk(results);
    var pairs := Collect(results).value;
    forall i | 0 <= i < |pairs| ensures
      pairs[i].0 == Yaml.String(entries[i].0) && YamlOf(entries[i].1, format) == Ok(pairs[i].1)
    {
      assert results[i] == YamlEntryOf(entries[i].0, YamlOf(entries[i].1, format));
    }
    WrappedKeys(entries, pairs);
    if DistinctKeys(entries) {
      FromDistinctPairs(pairs);
    }
  }

  /** Wrapping each key of a string-keyed map as a YAML string wraps its key set
      and keeps keys distinct. */
  lemma WrappedKeys(entries: seq<(string, Json.Value)>, pairs: seq<(Yaml.Value, Yaml.Value)>)
    requires |pairs| == |entries|
    requires forall i :: 0 <= i < |entries| ==> pairs[i].0 == Yaml.String(entries[i].0)
    ensures KeySet(pairs) == set k | k in KeySet(entries) :: Yaml.String(k)
    ensures DistinctKeys(entries) ==> DistinctKeys(pairs)
  {
  }

  // ---------------------------------------------------------------------
  // YAML to JSON

  /** The scalar arms that always succeed map one-to-one. */
  lemma JsonOfScalars(i: Int64, s: string, b: bool, parse: FloatParser)
    ensures JsonOf(Yaml.Integer(i), parse) == Ok(Json.I64(i))
    ensures JsonOf(Yaml.String(s), parse) == Ok(Json.String(s))
    ensures JsonOf(Yaml.Boolean(b), parse) == Ok(Json.Bool(b))
    ensures JsonOf(Yaml.Null, parse) == Ok(Json.Null)
  {
  }

  /** A YAML float converts exactly when its text parses, to the parsed value;
      otherwise the parse error comes back as `ParseFloat`. */
  lemma JsonOfReal(text: string, parse: FloatParser)
    ensures JsonOf(Yaml.Real(text), parse).Ok? <==> parse(text).Ok?
    ensures parse(text).Ok? ==> JsonOf(Yaml.Real(text), parse) == Ok(Json.F64(parse(text).value))
    ensures parse(text).Err? ==> JsonOf(Yaml.Real(text), parse) == Err(ParseFloat(parse(text).error))
  {
  }

  /** Aliases are rejected, never followed, whatever they refer to; a bad value
      is an invalid value. */
  lemma JsonOfRejects(index: nat, parse: FloatParser)
    ensures JsonOf(Yaml.Alias(index), parse) == Err(UnsupportedValue(Yaml.Alias(index)))
    ensures JsonOf(Yaml.BadValue, parse) == Err(InvalidValue)
  {
  }

  /** An array converts exactly when every element does, and then element by
      element, in order. */
  lemma JsonOfArray(items: seq<Yaml.Value>, parse: FloatParser)
    ensures JsonOf(Yaml.Array(items), parse).Ok? <==>
      forall i :: 0 <= i < |items| ==> JsonOf(items[i], parse).Ok?
    ensures JsonOf(Yaml.Array(items), parse).Ok? ==>
      var json := JsonOf(Yaml.Array(items), parse).value;
      && json.Array?
      && |json.items| == |items|
      && forall i :: 0 <= i < |items| ==> JsonOf(items[i], parse) == Ok(json.items[i])
  {
    var results := seq(|items|, i requires 0 <= i < |items| => JsonOf(items[i], parse));
    assert forall i :: 0 <= i < |items| ==> results[i] == JsonOf(items[i], parse);
    CollectOk(results);
  }

  /** A failing array reports the error of its first failing element. */
  lemma JsonOfArrayFirstError(items: seq<Yaml.Value>, k: nat, parse: FloatParser)
    requires k < |items|
    requires forall i :: 0 <= i < k ==> JsonOf(items[i], parse).Ok?
    requires JsonOf(items[k], parse).Err?
    ensures JsonOf(Yaml.Array(items), parse) == Err(JsonOf(items[k], parse).error)
  {
    var results := seq(|items|, i requires 0 <= i < |items| => JsonOf(items[i], parse));
    CollectFirstError(results, k);
  }

  /** Entry `i` of a hash is convertible: a string key and a convertible value. */
  ghost predicate EntryConverts(entries: seq<(Yaml.Value, Yaml.Value)>, i: int, parse: FloatParser)
    requires 0 <= i < |entries|
  {
    entries[i].0.String? && JsonOf(entries[i].1, parse).Ok?
  }

  /** A hash converts exactly when every key is a string and every value
      converts. Its keys are then the key strings, none dropped or coerced, no
      key twice, and, the hash's own keys being distinct, entry by entry the
      object matches the hash. */
  lemma JsonOfHash(entries: seq<(Yaml.Value, Yaml.Value)>, parse: FloatParser)
    ensures JsonOf(Yaml.Hash(entries), parse).Ok? <==>
      forall i :: 0 <= i < |entries| ==> EntryConverts(entries, i, parse)
    ensures JsonOf(Yaml.Hash(entries), parse).Ok? ==>
      var json := JsonOf(Yaml.Hash(entries), parse).value;
      && json.Object?
      && KeySet(json.entries) == (set k | k in KeySet(entries) && k.String? :: k.s)
      && DistinctKeys(json.entries)
      && (DistinctKeys(entries) ==>
          && |json.entries| == |entries|
          && forall i :: 0 <= i < |entries| ==>
            && entries[i].0 == Yaml.String(json.entries[i].0)
            && JsonOf(entries[i].1, parse) == Ok(json.entries[i].1))
  {
    var results := seq(|entries|, i requires 0 <= i < |entries| =>
      JsonEntryOf(entries[i].0, JsonOf(entries[i].1, parse)));
    forall i | 0 <= i < |entries| ensures results[i].Ok? <==> EntryConverts(entries, i, parse) {
      assert results[i] == JsonEntryOf(entries[i].0, JsonOf(entries[i].1, parse));
    }
    CollectOk(results);
    if Collect(results).Ok? {
      var pairs := Collect(results).value;
      forall i | 0 <= i < |pairs| ensures
        entries[i].0 == Yaml.String(pairs[i].0) && JsonOf(entries[i].1, parse) == Ok(pairs[i].1)
      {
        assert results[i] == JsonEntryOf(entries[i].0, JsonOf(entries[i].1, parse));
        assert EntryConverts(entries, i, parse);
      }
      UnwrappedKeys(entries, pairs);
      if DistinctKeys(entries) {
        FromDistinctPairs(pairs);
      }
    }
  }

  /** Unwrapping the YAML string keys of a map gives its key strings and keeps
      keys distinct. */
  lemma UnwrappedKeys(entries: seq<(Yaml.Value, Yaml.Value)>, pairs: seq<(string, Json.Value)>)
    requires |pairs| == |entries|
    requires forall i :: 0 <= i < |entries| ==> entries[i].0 == Yaml.String(pairs[i].0)
    ensures KeySet(pairs) == set k | k in KeySet(entries) && k.String? :: k.s
    ensures DistinctKeys(entries) ==> DistinctKeys(pairs)
  {
  }

  /** A failing hash reports its first bad entry, in iteration order: a
      non-string key is reported as itself (and before its value is looked at),
      otherwise the value's error is reported. */
  lemma JsonOfHashFirstError(entries: seq<(Yaml.Value, Yaml.Value)>, k: nat, parse: FloatParser)
    requires k < |entries|
    requires forall i :: 0 <= i < k ==> EntryConverts(entries, i, parse)
    requires !EntryConverts(entries, k, parse)
    ensures JsonOf(Yaml.Hash(entries), parse) ==
      if entries[k].0.String? then Err(JsonOf(entries[k].1, parse).error)
      else Err(UnsupportedValue(entries[k].0))
  {
    var results := seq(|entries|, i requires 0 <= i < |entries| =>
      JsonEntryOf(entries[i].0, JsonOf(entries[i].1, parse)));
    forall i | 0 <= i < k ensures results[i].Ok? {
      assert EntryConverts(entries, i, parse);
    }
    CollectFirstError(results, k);
  }

  /** A hash with a key that is not a string never converts, whatever else it holds. */
  lemma JsonOfNonStringKey(entries: seq<(Yaml.Value, Yaml.Value)>, k: nat, parse: FloatParser)
    requires k < |entries|
    requires !entries[k].0.String?
    ensures JsonOf(Yaml.Hash(entries), parse).Err?
  {
    JsonOfHash(entries, parse);
    assert !EntryConverts(entries, k, parse);
  }

  // ---------------------------------------------------------------------
  // What the conversions produce

  /** Each entry of the hash `to_yaml` builds comes from an entry of the object:
      its key is that entry's key as a YAML string, its value that entry's value
      converted. */
  lemma YamlOfObjectBinding(entries: seq<(string, Json.Value)>, format: FloatFormatter, j: nat) returns (i: nat)
    requires YamlOf(Json.Object(entries), format).Ok?
    requires j < |YamlOf(Json.Object(entries), format).value.entries|
    ensures i < |entries|
    ensures
      var binding := YamlOf(Json.Object(entries), format).value.entries[j];
      binding.0 == Yaml.String(entries[i].0) && YamlOf(entries[i].1, format) == Ok(binding.1)
  {
    var results := seq(|entries|, i requires 0 <= i < |entries| =>
      YamlEntryOf(entries[i].0, YamlOf(entries[i].1, format)));
    CollectOk(results);
    var pairs := Collect(results).value;
    FromPairsBindings(pairs, j);
    i :| 0 <= i < |pairs| && pairs[i] == FromPairs(pairs)[j];
    assert results[i] == YamlEntryOf(entries[i].0, YamlOf(entries[i].1, format));
  }

  /** Each entry of the object `to_json` builds comes from an entry of the hash:
      its key is that entry's key string, its value that entry's value
      converted. No key is made up or coerced. */
  lemma JsonOfHashBinding(entries: seq<(Yaml.Value, Yaml.Value)>, parse: FloatParser, j: nat) returns (i: nat)
    requires JsonOf(Yaml.Hash(entries), parse).Ok?
    requires j < |JsonOf(Yaml.Hash(entries), parse).value.entries|
    ensures i < |entries|
    ensures
      var binding := JsonOf(Yaml.Hash(entries), parse).value.entries[j];
      entries[i].0 == Yaml.String(binding.0) && JsonOf(entries[i].1, parse) == Ok(binding.1)
  {
    var results := seq(|entries|, i requires 0 <= i < |entries| =>
      JsonEntryOf(entries[i].0, JsonOf(entries[i].1, parse)));
    CollectOk(results);
    var pairs := Collect(results).value;
    FromPairsBindings(pairs, j);
    i :| 0 <= i < |pairs| && pairs[i] == FromPairs(pairs)[j];
    assert results[i] == JsonEntryOf(entries[i].0, JsonOf(entries[i].1, parse));
  }

  /** Every binding of the map built from `ps` is one of the pairs of `ps`. */
  lemma {:induction false} FromPairsBindings<K, V>(ps: seq<(K, V)>, j: nat)
    requires j < |FromPairs(ps)|
    ensures FromPairs(ps)[j] in ps
  {
    var init := ps[..|ps| - 1];
    var last := ps[|ps| - 1];
    var m := FromPairs(init);
    var p := FromPairs(ps)[j];
    assert FromPairs(ps) == Insert(m, last.0, last.1);
    if p.0 == last.0 {
      assert p == last by {
        assert (last.0, last.1) in FromPairs(ps);
        assert DistinctKeys(FromPairs(ps));
      }
    } else {
      assert p in m;
      var j' :| 0 <= j' < |m| && m[j'] == p;
      FromPairsBindings(init, j');
    }
  }

  /** `to_yaml` produces only what `to_json` can take back in shape (no alias,
      no bad value, string keys only) and keeps every hash's map invariant. */
  lemma {:induction false} YamlOfShape(json: Json.Value, format: FloatFormatter)
    ensures YamlOf(json, format).Ok?
    ensures Yaml.JsonShaped(YamlOf(json, format).value)
    ensures Yaml.WellFormed(YamlOf(json, format).value)
  {
    YamlOfTotal(json, format);
    match json
    case Array(items) =>
      YamlOfArray(items, format);
      var ys := YamlOf(json, format).value.items;
      forall i | 0 <= i < |ys| ensures Yaml.JsonShaped(ys[i]) && Yaml.WellFormed(ys[i]) {
        YamlOfShape(items[i], format);
      }
    case Object(entries) =>
      YamlOfObject(entries, format);
      var hash := YamlOf(json, format).value.entries;
      forall j | 0 <= j < |hash| ensures
        hash[j].0.String? && Yaml.WellFormed(hash[j].0) &&
        Yaml.JsonShaped(hash[j].1) && Yaml.WellFormed(hash[j].1)
      {
        var i := YamlOfObjectBinding(entries, format, j);
        YamlOfShape(entries[i].1, format);
      }
    case _ =>
  }

  /** `to_json` succeeds only on trees of the right shape, and what it produces
      keeps every object's map invariant. */
  lemma {:induction false} JsonOfShape(yaml: Yaml.Value, parse: FloatParser)
    requires JsonOf(yaml, parse).Ok?
    ensures Yaml.JsonShaped(yaml)
    ensures Json.WellFormed(JsonOf(yaml, parse).value)
  {
    match yaml
    case Array(items) =>
      JsonOfArray(items, parse);
      var xs := JsonOf(yaml, parse).value.items;
      forall i | 0 <= i < |items| ensures Yaml.JsonShaped(items[i]) && Json.WellFormed(xs[i]) {
        JsonOfShape(items[i], parse);
      }
    case Hash(entries) =>
      JsonOfHash(entries, parse);
      forall i | 0 <= i < |entries| ensures entries[i].0.String? && Yaml.JsonShaped(entries[i].1) {
        assert EntryConverts(entries, i, parse);
        JsonOfShape(entries[i].1, parse);
      }
      var obj := JsonOf(yaml, parse).value.entries;
      forall j | 0 <= j < |obj| ensures Json.WellFormed(obj[j].1) {
        var i := JsonOfHashBinding(entries, parse, j);
        JsonOfShape(entries[i].1, parse);
      }
    case _ =>
  }

  // ---------------------------------------------------------------------
  // Round trips

  /** Values that come back unchanged from a trip through YAML: no `u64`
      (it returns as an `i64`), and every float one whose text parses back to it. */
  ghost predicate SurvivesYaml(json: Json.Value, format: FloatFormatter, parse: FloatParser) {
    match json
    case U64(_) => false
    case F64(f) => parse(format(f)) == Ok(f)
    case Array(items) => forall i :: 0 <= i < |items| ==> SurvivesYaml(items[i], format, parse)
    case Object(entries) =>
      DistinctKeys(entries) && forall i :: 0 <= i < |entries| ==> SurvivesYaml(entries[i].1, format, parse)
    case _ => true
  }

  /** `to_json(to_yaml(x)) == Ok(x)` for every value that survives the trip. */
  lemma {:induction false} JsonYamlJsonRoundTrip(json: Json.Value, format: FloatFormatter, parse: FloatParser)
    requires SurvivesYaml(json, format, parse)
    ensures YamlOf(json, format).Ok?
    ensures JsonOf(YamlOf(json, format).value, parse) == Ok(json)
  {
    YamlOfTotal(json, format);
    match json
    case Array(items) =>
      YamlOfArray(items, format);
      var ys := YamlOf(json, format).value.items;
      forall i | 0 <= i < |ys| ensures JsonOf(ys[i], parse) == Ok(items[i]) {
        JsonYamlJsonRoundTrip(items[i], format, parse);
      }
      JsonOfArray(ys, parse);
      assert JsonOf(Yaml.Array(ys), parse).value.items == items;
    case Object(entries) =>
      YamlOfObject(entries, format);
      var hash := YamlOf(json, format).value.entries;
      forall i | 0 <= i < |hash| ensures EntryConverts(hash, i, parse) && JsonOf(hash[i].1, parse) == Ok(entries[i].1) {
        JsonYamlJsonRoundTrip(entries[i].1, format, parse);
      }
      assert DistinctKeys(hash);
      JsonOfHash(hash, parse);
      assert JsonOf(Yaml.Hash(hash), parse).value.entries == entries;
    case _ =>
  }

  /** A value built only from null, booleans, `i64`s, strings, arrays and
      objects. */
  ghost predicate Plain(json: Json.Value) {
    match json
    case U64(_) => false
    case F64(_) => false
    case Array(items) => forall i :: 0 <= i < |items| ==> Plain(items[i])
    case Object(entries) => forall i :: 0 <= i < |entries| ==> Plain(entries[i].1)
    case _ => true
  }

  lemma {:induction false} PlainSurvivesYaml(json: Json.Value, format: FloatFormatter, parse: FloatParser)
    requires Plain(json) && Json.WellFormed(json)
    ensures SurvivesYaml(json, format, parse)
  {
    match json
    case Array(items) =>
      forall i | 0 <= i < |items| ensures SurvivesYaml(items[i], format, parse) {
        PlainSurvivesYaml(items[i], format, parse);
      }
    case Object(entries) =>
      forall i | 0 <= i < |entries| ensures SurvivesYaml(entries[i].1, format, parse) {
        PlainSurvivesYaml(entries[i].1, format, parse);
      }
    case _ =>
  }

  /** The round trip for float-free, `u64`-free values holds whatever the float
      formatting and parsing are. */
  lemma PlainRoundTrip(json: Json.Value, format: FloatFormatter, parse: FloatParser)
    requires Plain(json) && Json.WellFormed(json)
    ensures YamlOf(json, format).Ok?
    ensures JsonOf(YamlOf(json, format).value, parse) == Ok(json)
  {
    PlainSurvivesYaml(json, format, parse);
    JsonYamlJsonRoundTrip(json, format, parse);
  }

  /** A `u64` does not survive: it comes back as the wrapped `i64`. */
  lemma U64ComesBackSigned(u: UInt64, format: FloatFormatter, parse: FloatParser)
    ensures JsonOf(YamlOf(Json.U64(u), format).value, parse) == Ok(Json.I64(WrapToInt64(u)))
    ensures JsonOf(YamlOf(Json.U64(u), format).value, parse) .value.i == u <==> u <= MaxInt64
  {
  }

  /** The library's test `json_to_yaml`: the JSON array `["foo"]` becomes the
      YAML array of the one string `foo`. */
  lemma JsonToYamlExample(format: FloatFormatter)
    ensures YamlOf(Json.Array([Json.String("foo")]), format) == Ok(Yaml.Array([Yaml.String("foo")]))
  {
    var json := Json.Array([Json.String("foo")]);
    YamlOfArray(json.items, format);
    var yaml := YamlOf(json, format).value;
    assert yaml.items == [Yaml.String("foo")] by {
      assert YamlOf(json.items[0], format) == Ok(yaml.items[0]);
    }
  }

  /** The library's test `yaml_to_json`: the YAML array `["foo"]` becomes the
      JSON array of the one string `foo`. */
  lemma YamlToJsonExample(parse: FloatParser)
    ensures JsonOf(Yaml.Array([Yaml.String("foo")]), parse) == Ok(Json.Array([Json.String("foo")]))
  {
    var yaml := Yaml.Array([Yaml.String("foo")]);
    JsonOfArray(yaml.items, parse);
    assert JsonOf(yaml.items[0], parse).Ok?;
    var json := JsonOf(yaml, parse).value;
    assert json.items == [Json.String("foo")] by {
      assert JsonOf(yaml.items[0], parse) == Ok(json.items[0]);
    }
  }

  /** YAML values that come back unchanged from a trip through JSON: of the
      right shape, every hash keeping its invariant, and every float text the
      formatting of what it parses to. */
  ghost predicate SurvivesJson(yaml: Yaml.Value, format: FloatFormatter, parse: FloatParser) {
    match yaml
    case Real(text) => parse(text).Ok? && format(parse(text).value) == text
    case Array(items) => forall i :: 0 <= i < |items| ==> SurvivesJson(items[i], format, parse)
    case Hash(entries) =>
      && DistinctKeys(entries)
      && forall i :: 0 <= i < |entries| ==> entries[i].0.String? && SurvivesJson(entries[i].1, format, parse)
    case Alias(_) => false
    case BadValue => false
    case _ => true
  }

  /** `to_yaml(to_json(y)) == Ok(y)` for every YAML value that survives the trip. */
  lemma {:induction false} YamlJsonYamlRoundTrip(yaml: Yaml.Value, format: FloatFormatter, parse: FloatParser)
    requires SurvivesJson(yaml, format, parse)
    ensures JsonOf(yaml, parse).Ok?
    ensures YamlOf(JsonOf(yaml, parse).value, format) == Ok(yaml)
  {
    match yaml
    case Array(items) =>
      forall i | 0 <= i < |items| ensures JsonOf(items[i], parse).Ok? && YamlOf(JsonOf(items[i], parse).value, format) == Ok(items[i]) {
        YamlJsonYamlRoundTrip(items[i], format, parse);
      }
      JsonOfArray(items, parse);
      var xs := JsonOf(yaml, parse).value.items;
      YamlOfArray(xs, format);
      assert YamlOf(Json.Array(xs), format).value.items == items;
    case Hash(entries) =>
      forall i | 0 <= i < |entries| ensures EntryConverts(entries, i, parse) && YamlOf(JsonOf(entries[i].1, parse).value, format) == Ok(entries[i].1) {
        YamlJsonYamlRoundTrip(entries[i].1, format, parse);
      }
      JsonOfHash(entries, parse);
      var obj := JsonOf(yaml, parse).value.entries;
      assert DistinctKeys(obj);
      YamlOfObject(obj, format);
      assert YamlOf(Json.Object(obj), format).value.entries == entries;
    case _ =>
  }
}
