# jamal, modelled in Dafny

jamal converts document values between two tree models. One is the JSON
model of `serde_json::Value`. The other is the YAML model of
`serde_yaml::Value`. It has two entry points:

- `to_yaml` turns a JSON value into a YAML value. It never fails.
- `to_json` turns a YAML value into a JSON value. It fails on a float text that
  does not parse, on a hash key that is not a string, on an alias and on a bad
  value.

Both return a `Result` whose error is the library's `Error` enum.

This project models the library file by file:

- `numbers.dfy` (`Numbers`): `i64`, `u64`, `f64` and the wrapping cast `u as i64`.
- `wrappers.dfy` (`Wrappers`): `Option`, `Result`, and `Collect`. `Collect` is
  what a `for` loop that applies `try!` to each element computes: the first
  error, or all the values in order.
- `entries.dfy` (`Entries`): a `BTreeMap` as its entries in iteration order,
  with `insert` and the no-duplicate-keys invariant.
- `json.dfy`, `yaml.dfy` (`Json`, `Yaml`): the two value models.
- `jamal.dfy` (`Jamal`) models `src/lib.rs`. It holds `Error` with
  `description`, `cause` and `From<ParseFloatError>`. It states what each
  conversion returns as a function (`YamlOf`, `JsonOf`). It also holds each
  conversion as a method (`ToYaml`, `ToJson`). The methods use the library's
  loops: they push into a vector or insert into a map, and they leave at the
  first error. Each method is proved to return its function's result.
- `properties.dfy` (`JamalProperties`): the properties of the two functions.
  These are totality, element-wise conversion, key preservation, exact
  rejection conditions, first error wins, output shape, and round trips.

The standard library's float formatting (`f64::to_string`) and float parsing
(`str::parse::<f64>`) are parameters of the conversions. So are the errors
that parsing gives. The float round trips are proved under the hypothesis that
formatting and parsing undo each other on the values involved. Floats are held
as their 64-bit pattern and never computed with.

Maps are sequences of key/value pairs in iteration order. `Entries.Insert`
replaces the value of a key already present, or adds a new key after the
others. The model does not define serde's ordering of keys. Adding at the end
still gives the sorted order in every conversion: the keys are read from a
sorted map in ascending order, and the output map orders them the same way. In
`to_yaml`, string keys are wrapped as YAML strings. In `to_json`, YAML string
keys are unwrapped, and any other key stops the loop with an error.

Three details of the code that the model keeps as written:

- A non-string hash key gives `UnsupportedValue(key)`, never `InvalidValue`.
- `to_yaml` has no failing case at all (`YamlOfTotal`).
- The description of `UnsupportedValue` is the text `"supported value"`, as
  written at `src/lib.rs:27`.

## Model

| member | source | states |
|---|---|---|
| Numbers.WrapToInt64 | src/lib.rs:61 | `u as i64` gives the `i64` congruent to `u` modulo 2^64: `u` itself up to 2^63 - 1, a negative value above that; it wraps, it does not clamp |
| Numbers.WrapToInt64Injective | src/lib.rs:61 | the cast's result is the only `i64` with the bits of `u`, and distinct `u64`s give distinct `i64`s |
| Wrappers.Collect | src/lib.rs:90-94 | a `for` loop that `try!`s each element's result: the first error, or every value in order; its properties are stated by `CollectOk`, `CollectFirstError`, `CollectFailFast` and `CollectStep` |
| Wrappers.CollectOk | src/lib.rs:64-70 | a loop that `try!`s each element succeeds exactly when every element does, and then yields every element's value, in order |
| Wrappers.CollectFirstError | src/lib.rs:90-94 | when elements before `k` succeed and element `k` fails, the loop returns element `k`'s error, whatever follows |
| Wrappers.CollectFailFast | src/lib.rs:92 | before `try!` on element `k` of a loop whose prefix succeeded: if that element fails, the loop's result is its error |
| Wrappers.CollectStep | src/lib.rs:93 | one loop step extends a successful prefix by pushing the element's value, or ends with its error |
| Entries.Insert | src/lib.rs:75 | `insert` binds the key to the value, keeps every other binding, adds none, keeps keys distinct, and appends a new key; when the key is present, every entry keeps its position and every other entry is untouched |
| Entries.FromPairs | src/lib.rs:72-76 | the map built by inserting pairs one by one has exactly their keys, each once |
| Entries.FromPairsLastWins | src/lib.rs:72-76 | the map built by inserting pairs one by one keeps, for each key, the value inserted last |
| Entries.FromDistinctPairs | src/lib.rs:98-107 | inserting pairs whose keys are distinct gives exactly those pairs, in order |
| Jamal.Cause | src/lib.rs:31-36 | `cause` is `Some` exactly for `ParseFloat`, and then it is the parse error |
| Jamal.Description | src/lib.rs:23-29 | `description` of `ParseFloat` is its cause's description; otherwise "invalid value" for `InvalidValue` and "supported value" for `UnsupportedValue` |
| Jamal.FromParseFloatError | src/lib.rs:49-53 | the error made from a parse error has that parse error as its cause and its text as description |
| Jamal.YamlOf | src/lib.rs:56-80 | what `to_yaml` returns, arm by arm; its properties are stated by `YamlOfTotal`, `YamlOfScalars`, `YamlOfArray`, `YamlOfObject`, `YamlOfObjectBinding` and `YamlOfShape`, and `ToYaml` is proved to compute it |
| Jamal.YamlEntryOf | src/lib.rs:74-75 | one object entry converts exactly when its value does, to the key wrapped as a YAML string paired with the converted value; otherwise it gives the value's error |
| Jamal.JsonOf | src/lib.rs:83-114 | what `to_json` returns, arm by arm; its properties are stated by `JsonOfScalars`, `JsonOfReal`, `JsonOfRejects`, `JsonOfArray`, `JsonOfHash`, the first-error lemmas and `JsonOfShape`, and `ToJson` is proved to compute it |
| Jamal.JsonEntryOf | src/lib.rs:100-105 | one hash entry converts exactly when its key is a YAML string and its value converts; a non-string key gives `UnsupportedValue(key)` whatever the value, so the key is checked first; a string key with a failing value gives the value's error |
| Jamal.ToYaml | src/lib.rs:56-80 | the loop implementation of `to_yaml` returns exactly `YamlOf` of its input |
| Jamal.ToJson | src/lib.rs:83-114 | the loop implementation of `to_json` returns exactly `JsonOf` of its input, including which error at the first failure |
| JamalProperties.YamlOfTotal | src/lib.rs:56-80 | `to_yaml` never returns an error |
| JamalProperties.YamlOfScalars | src/lib.rs:58-63 | null, booleans, `i64` and strings map one-to-one; a `u64` becomes the wrapped integer; a float becomes its formatted text |
| JamalProperties.YamlOfArray | src/lib.rs:64-70 | an array becomes an array of the same length whose element `i` is element `i` converted |
| JamalProperties.YamlOfObject | src/lib.rs:71-78 | an object becomes a hash with distinct keys, whose key set is exactly the object's keys wrapped as YAML strings; entry `i` is the object's entry `i` with its key wrapped and its value converted |
| JamalProperties.YamlOfObjectBinding | src/lib.rs:73-75 | every entry of the resulting hash is some object entry with its key wrapped and its value converted |
| JamalProperties.JsonOfScalars | src/lib.rs:86-88 | integers, strings, booleans and null map one-to-one |
| JamalProperties.JsonOfReal | src/lib.rs:85 | a float text converts exactly when it parses, to the parsed float; otherwise the result is `ParseFloat` of the parse error |
| JamalProperties.JsonOfRejects | src/lib.rs:110-112 | an alias always fails with `UnsupportedValue` of the alias itself; a bad value always fails with `InvalidValue` |
| JamalProperties.JsonOfArray | src/lib.rs:89-96 | an array converts exactly when every element converts; the result then has the same length and element `i` is element `i` converted |
| JamalProperties.JsonOfArrayFirstError | src/lib.rs:90-94 | a failing array returns the error of its first failing element |
| JamalProperties.JsonOfHash | src/lib.rs:97-109 | a hash converts exactly when every key is a string and every value converts; the object's keys are then exactly the key strings, each once, and entry `i` is the hash's entry `i` with its key unwrapped and its value converted |
| JamalProperties.JsonOfHashBinding | src/lib.rs:101-103 | every entry of the resulting object comes from a hash entry with a string key, its key unwrapped and its value converted; no key is coerced |
| JamalProperties.JsonOfHashFirstError | src/lib.rs:99-107 | a failing hash returns the error of its first bad entry in iteration order: `UnsupportedValue(key)` for a non-string key, checked before the value, otherwise the value's error |
| JamalProperties.JsonOfNonStringKey | src/lib.rs:105 | a hash with any non-string key never converts |
| JamalProperties.YamlOfShape | src/lib.rs:56-80 | `to_yaml` never produces an alias, a bad value or a non-string key, and every hash it builds has distinct keys |
| JamalProperties.JsonOfShape | src/lib.rs:83-114 | `to_json` succeeds only on trees without aliases, bad values and non-string keys, and every object it builds has distinct keys |
| JamalProperties.JsonYamlJsonRoundTrip | src/lib.rs:56-114 | `to_json(to_yaml(x)) == Ok(x)` for every value without `u64`s whose floats' texts parse back to them |
| JamalProperties.PlainRoundTrip | src/lib.rs:56-114 | `to_json(to_yaml(x)) == Ok(x)` for every value built from null, booleans, `i64`s, strings, arrays and objects, whatever the float formatting and parsing |
| JamalProperties.U64ComesBackSigned | src/lib.rs:61 | a `u64` comes back from the round trip as the wrapped `i64`, which is the same number exactly when it is at most 2^63 - 1 |
| JamalProperties.JsonToYamlExample | src/lib.rs:122-127 | the test `json_to_yaml`: the JSON array `["foo"]` becomes the YAML array of the string `foo` |
| JamalProperties.YamlToJsonExample | src/lib.rs:129-134 | the test `yaml_to_json`: the YAML array `["foo"]` becomes the JSON array of the string `foo` |
| JamalProperties.YamlJsonYamlRoundTrip | src/lib.rs:83-114 | `to_yaml(to_json(y)) == Ok(y)` for every YAML value with distinct hash keys, string keys only, no alias or bad value, and float texts that are the formatting of what they parse to |

## Left out

- Float formatting (`value.to_string()`, src/lib.rs:62) and float parsing (`parse::<f64>()`, src/lib.rs:85) are standard-library numerics. They are parameters of the conversions. The float round trips hold only under the stated hypotheses about them.
- `ParseFloatError` is modelled by its description text alone. Its fields and its own texts belong to the standard library.
- `Display` for `Error` (src/lib.rs:39-43) prints the derived `Debug` form, which is generated code that cannot be seen.
- serde's key ordering on YAML values is not modelled. Maps are given as entry sequences in iteration order, and `Entries.Insert` places a new key last. The conversions only ever add keys in ascending order, so this gives the same sequence as sorted insertion.
- Text parsing and serialisation by serde_json and serde_yaml are out of scope, including the `to_value` helpers the tests use (src/lib.rs:125, src/lib.rs:132). The tests' two cases are stated on the values those helpers produce, by `JsonToYamlExample` and `YamlToJsonExample`.
- Aliases are never resolved, so an alias is only its anchor number.
- Conversion uses stack space in proportion to nesting depth. The model has no resource bounds.
- JamalProperties.YamlOfObject: entry-by-entry equality is stated only for objects with distinct keys. That is every object a `BTreeMap` can hold. For other key sequences only the key set and `YamlOfObjectBinding` are stated.
- JamalProperties.JsonOfHash: entry-by-entry equality is stated only for hashes with distinct keys. That is every hash a `BTreeMap` can hold. For other key sequences only the key set and `JsonOfHashBinding` are stated.
