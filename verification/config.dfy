/** `load_config` (src/helpers/config.py): a right-biased shallow merge of the
    built-in defaults with the JSON object read from `config.json`. Reading
    and parsing the file are abstracted to a `ConfigFile` value. */
module Config {
  import opened Wrappers
  import opened Json

  /** The configuration is a dictionary from option names to JSON values. */
  type Settings = map<string, JsonValue>

  /** The raw-label table models with generic class names need. */
  const DefaultLabelMapping: map<string, JsonValue> :=
    map["LABEL_0" := JStr("negative"), "LABEL_1" := JStr("neutral"), "LABEL_2" := JStr("positive")]

  const Defaults: Settings := map[
    "model_name" := JStr("cardiffnlp/twitter-xlm-roberta-base-sentiment"),
    "use_transformers" := JBool(true),
    "label_mapping" := JObj(DefaultLabelMapping)
  ]

  /** What became of `config.json`: not there, there but unreadable or not
      valid JSON (`None`), or parsed to a value. */
  datatype ConfigFile = Absent | Present(parsed: Option<JsonValue>)

  /** Parsed JSON that is not an object cannot be unpacked into a dict: the
      merge raises and the error escapes `load_config`. */
  datatype ConfigError = NotAnObject(found: JsonValue)

  /** `{**DEFAULTS, **data}` where `data` is `{}` unless the file parsed. */
  function LoadConfig(file: ConfigFile): (r: Result<Settings, ConfigError>)
    ensures file.Absent? ==> r == Success(Defaults)
    ensures file == Present(None) ==> r == Success(Defaults)
    ensures r.Failure? <==> file.Present? && file.parsed.Some? && !file.parsed.value.JObj?
    ensures r.Failure? ==> r.error == NotAnObject(file.parsed.value)
    ensures r.Success? ==> forall k :: k in Defaults ==> k in r.value
  {
    match file
    case Absent => Success(Defaults)
    case Present(None) => Success(Defaults)
    case Present(Some(JObj(data))) => Success(Defaults + data)
    case Present(Some(v)) => Failure(NotAnObject(v))
  }

  /** The merge of a parsed object: its keys are the union of both key sets,
      every file value wins unvalidated, and every default the file does not
      mention survives. */
  lemma LoadConfigMerge(data: map<string, JsonValue>)
    ensures LoadConfig(Present(Some(JObj(data)))).Success?
    ensures LoadConfig(Present(Some(JObj(data)))).value.Keys == Defaults.Keys + data.Keys
    ensures forall k :: k in data ==> LoadConfig(Present(Some(JObj(data)))).value[k] == data[k]
    ensures forall k :: k in Defaults && k !in data ==> LoadConfig(Present(Some(JObj(data)))).value[k] == Defaults[k]
  {
  }

  /** An empty object in the file yields exactly the defaults. */
  lemma LoadEmptyObject()
    ensures LoadConfig(Present(Some(JObj(map[])))) == Success(Defaults)
  {
    assert Defaults + map[] == Defaults;
  }

  /** Writing a loaded configuration back to the file and loading it again
      yields the same configuration. */
  lemma LoadConfigRoundTrip(file: ConfigFile)
    requires LoadConfig(file).Success?
    ensures LoadConfig(Present(Some(JObj(LoadConfig(file).value)))) == LoadConfig(file)
  {
    var c := LoadConfig(file).value;
    assert Defaults + c == c;
  }

  /** The merge is shallow: a file `label_mapping` replaces the default table
      as a whole, so a default raw label the file's table omits is gone. */
  lemma LabelMappingReplacedWhole(m: map<string, JsonValue>)
    ensures LoadConfig(Present(Some(JObj(map["label_mapping" := JObj(m)])))).Success?
    ensures LoadConfig(Present(Some(JObj(map["label_mapping" := JObj(m)])))).value["label_mapping"] == JObj(m)
    ensures forall k :: k in DefaultLabelMapping && k !in m ==>
      k !in LoadConfig(Present(Some(JObj(map["label_mapping" := JObj(m)])))).value["label_mapping"].fields
  {
  }
}
