/** The two conversions between the JSON and the YAML document models, and the
    error type they share.

    Each conversion is given twice: as a function (`YamlOf`, `JsonOf`) that says
    what the result is, and as a method (`ToYaml`, `ToJson`) that computes it the
    way the library does, with `for` loops that push into a vector or insert into
    a map and leave at the first error. Each method is proved to return its
    function's result; the properties of the functions are in `JamalProperties`. */
module Jamal {
  import opened Wrappers
  import opened Numbers
  import opened Entries
  import Json
  import Yaml

  /** `std::num::ParseFloatError`, known here only by its description text. */
  datatype ParseFloatError = ParseFloatError(description: string)

  /** Everything that can go wrong in a conversion. */
  datatype Error =
      /** A YAML float whose text is not a float literal. */
    | ParseFloat(parseError: ParseFloatError)
      /** A YAML `BadValue`. */
    | InvalidValue
      /** A YAML node with no JSON counterpart: an alias, or a non-string key. */
    | UnsupportedValue(value: Yaml.Value)

  /** `Error::cause`: only a float-parsing failure has an underlying error. */
  function Cause(e: Error): (cause: Option<ParseFloatError>)
    ensures cause.Some? <==> e.ParseFloat?
    ensures e.ParseFloat? ==> cause.value == e.parseError
  {
    match e
    case ParseFloat(pe) => Some(pe)
    case _ => None
  }

  /** `Error::description`: a float-parsing failure describes itself by its
      cause's text; the other two kinds have fixed texts. */
  function Description(e: Error): (text: string)
    ensures e.ParseFloat? ==> text == Cause(e).value.description
    ensures e.InvalidValue? ==> text == "invalid value"
    ensures e.UnsupportedValue? ==> text == "supported value"
  {
    match e
    case ParseFloat(pe) => pe.description
    case InvalidValue => "invalid value"
    case UnsupportedValue(_) => "supported value"
  }

  /** `From<ParseFloatError> for Error`, which `try!` applies to a failed parse. */
  function FromParseFloatError(pe: ParseFloatError): (e: Error)
    ensures Cause(e) == Some(pe)
    ensures Description(e) == pe.description
  {
    ParseFloat(pe)
  }

  /** `f64::to_string`, the standard library's float formatting. */
  type FloatFormatter = Float64 -> string

  /** `str::parse::<f64>`, the standard library's float parsing. */
  type FloatParser = string -> Result<Float64, ParseFloatError>

  /** What `to_yaml` returns for `json`. */
  function YamlOf(json: Json.Value, format: FloatFormatter): Result<Yaml.Value, Error>
    decreases json
  {
    match json
    case Null => Ok(Yaml.Null)
    case Bool(b) => Ok(Yaml.Boolean(b))
    case I64(i) => Ok(Yaml.Integer(i))
    case U64(u) => Ok(Yaml.Integer(WrapToInt64(u)))
    case F64(f) => Ok(Yaml.Real(format(f)))
    case String(s) => Ok(Yaml.String(s))
    case Array(items) =>
      var results := seq(|items|, i requires 0 <= i < |items| => YamlOf(items[i], format));
      (match Collect(results)
       case Ok(ys) => Ok(Yaml.Array(ys))
       case Err(e) => Err(e))
    case Object(entries) =>
      var results := seq(|entries|, i requires 0 <= i < |entries| =>
        YamlEntryOf(entries[i].0, YamlOf(entries[i].1, format)));
      (match Collect(results)
       case Ok(pairs) => Ok(Yaml.Hash(FromPairs(pairs)))
       case Err(e) => Err(e))
  }

  /** One object entry on its way to YAML: the key becomes a YAML string. */
  function YamlEntryOf(key: string, value: Result<Yaml.Value, Error>): (r: Result<(Yaml.Value, Yaml.Value), Error>)
    ensures r.Ok? <==> value.Ok?
    ensures r.Ok? ==> r.value == (Yaml.String(key), value.value)
    ensures r.Err? ==> r.error == value.error
  {
    match value
    case Ok(y) => Ok((Yaml.String(key), y))
    case Err(e) => Err(e)
  }

  /** What `to_json` returns for `yaml`. */
  function JsonOf(yaml: Yaml.Value, parse: FloatParser): Result<Json.Value, Error>
    decreases yaml
  {
    match yaml
    case Real(text) =>
      (match parse(text)
       case Ok(x) => Ok(Json.F64(x))
       case Err(pe) => Err(FromParseFloatError(pe)))
    case Integer(i) => Ok(Json.I64(i))
    case String(s) => Ok(Json.String(s))
    case Boolean(b) => Ok(Json.Bool(b))
    case Array(items) =>
      var results := seq(|items|, i requires 0 <= i < |items| => JsonOf(items[i], parse));
      (match Collect(results)
       case Ok(xs) => Ok(Json.Array(xs))
       case Err(e) => Err(e))
    case Hash(entries) =>
      var results := seq(|entries|, i requires 0 <= i < |entries| =>
        JsonEntryOf(entries[i].0, JsonOf(entries[i].1, parse)));
      (match Collect(results)
       case Ok(pairs) => Ok(Json.Object(FromPairs(pairs)))
       case Err(e) => Err(e))
    case Alias(_) => Err(UnsupportedValue(yaml))
    case Null => Ok(Json.Null)
    case BadValue => Err(InvalidValue)
  }

  /** One hash entry on its way to JSON: the key must be a YAML string, and is
      checked before the value; any other key is the error. */
  function JsonEntryOf(key: Yaml.Value, value: Result<Json.Value, Error>): (r: Result<(string, Json.Value), Error>)
    ensures r.Ok? <==> key.String? && value.Ok?
    ensures r.Ok? ==> r.value == (key.s, value.value)
    ensures !key.String? ==> r == Err(UnsupportedValue(key))
    ensures key.String? && value.Err? ==> r == Err(value.error)
  {
    if key.String? then
      match value
      case Ok(x) => Ok((key.s, x))
      case Err(e) => Err(e)
    else Err(UnsupportedValue(key))
  }

  /** `to_yaml`. */
  method ToYaml(json: Json.Value, format: FloatFormatter) returns (r: Result<Yaml.Value, Error>)
    ensures r == YamlOf(json, format)
    decreases json
  {
    match json {
      case Null => r := Ok(Yaml.Null);
      case Bool(value) => r := Ok(Yaml.Boolean(value));
      case I64(value) => r := Ok(Yaml.Integer(value));
      case U64(value) => r := Ok(Yaml.Integer(WrapToInt64(value)));
      case F64(value) => r := Ok(Yaml.Real(format(value)));
      case String(value) => r := Ok(Yaml.String(value));
      case Array(values) =>
        ghost var results := seq(|values|, i requires 0 <= i < |values| => YamlOf(values[i], format));
        var yamlValues: seq<Yaml.Value> := [];
        for i := 0 to |values|
          invariant Collect(results[..i]) == Ok(yamlValues)
        {
          CollectFailFast(results, i);
          CollectStep(results, i, yamlValues);
          var yaml :- ToYaml(values[i], format);
          yamlValues := yamlValues + [yaml];
        }
        assert results[..|values|] == results;
        r := Ok(Yaml.Array(yamlValues));
      case Object(value) =>
        ghost var results := seq(|value|, i requires 0 <= i < |value| =>
          YamlEntryOf(value[i].0, YamlOf(value[i].1, format)));
        ghost var pairs: seq<(Yaml.Value, Yaml.Value)> := [];
        var yamlValue: seq<(Yaml.Value, Yaml.Value)> := [];
        for i := 0 to |value|
          invariant Collect(results[..i]) == Ok(pairs)
          invariant yamlValue == FromPairs(pairs)
        {
          var (k, v) := value[i];
          CollectFailFast(results, i);
          CollectStep(results, i, pairs);
          var yaml :- ToYaml(v, format);
          yamlValue := Insert(yamlValue, Yaml.String(k), yaml);
          ghost var before := pairs;
          pairs := pairs + [(Yaml.String(k), yaml)];
          assert pairs[..|pairs| - 1] == before;
        }
        assert results[..|value|] == results;
        r := Ok(Yaml.Hash(yamlValue));
    }
  }

  /** `to_json`. */
  method ToJson(yaml: Yaml.Value, parse: FloatParser) returns (r: Result<Json.Value, Error>)
    ensures r == JsonOf(yaml, parse)
    decreases yaml
  {
    match yaml {
      case Real(value) =>
        var parsed := parse(value);
        match parsed {
          case Ok(x) => r := Ok(Json.F64(x));
          case Err(pe) => r := Err(FromParseFloatError(pe));
        }
      case Integer(value) => r := Ok(Json.I64(value));
      case String(value) => r := Ok(Json.String(value));
      case Boolean(value) => r := Ok(Json.Bool(value));
      case Array(values) =>
        ghost var results := seq(|values|, i requires 0 <= i < |values| => JsonOf(values[i], parse));
        var jsonValues: seq<Json.Value> := [];
        for i := 0 to |values|
          invariant Collect(results[..i]) == Ok(jsonValues)
        {
          CollectFailFast(results, i);
          CollectStep(results, i, jsonValues);
          var json :- ToJson(values[i], parse);
          jsonValues := jsonValues + [json];
        }
        assert results[..|values|] == results;
        r := Ok(Json.Array(jsonValues));
      case Hash(value) =>
        ghost var results := seq(|value|, i requires 0 <= i < |value| =>
          JsonEntryOf(value[i].0, JsonOf(value[i].1, parse)));
        ghost var pairs: seq<(string, Json.Value)> := [];
        var jsonValue: seq<(string, Json.Value)> := [];
        for i := 0 to |value|
          invariant Collect(results[..i]) == Ok(pairs)
          invariant jsonValue == FromPairs(pairs)
        {
          var (k, v) := value[i];
          CollectFailFast(results, i);
          CollectStep(results, i, pairs);
          match k {
            case String(key) =>
              var json :- ToJson(v, parse);
              jsonValue := Insert(jsonValue, key, json);
              ghost var before := pairs;
              pairs := pairs + [(key, json)];
              assert pairs[..|pairs| - 1] == before;
            case _ =>
              return Err(UnsupportedValue(k));
          }
        }
        assert results[..|value|] == results;
        r := Ok(Json.Object(jsonValue));
      case Alias(_) => r := Err(UnsupportedValue(yaml));
      case Null => r := Ok(Json.Null);
      case BadValue => r := Err(InvalidValue);
    }
  }
}
