/** `Config` from `proxiflow/config/config.py`: checking the parsed YAML
    document and reading its top-level sections. Reading the file and
    parsing YAML are the library's work; their outcome is an input here. */
module Config {
  import opened Wrappers
  import opened Errors

  /** A YAML document as `yaml.safe_load` builds it. A mapping keeps its
      entries in document order, keys of any kind. */
  datatype Yaml =
    | YNull
    | YBool(b: bool)
    | YInt(i: int)
    | YFloat(f: real)
    | YStr(s: string)
    | YList(items: seq<Yaml>)
    | YMap(entries: seq<(Yaml, Yaml)>)

  /** What opening and parsing the file produced. */
  datatype ParseOutcome =
    | FileMissing
    | SyntaxError(detail: string)
    | Parsed(doc: Yaml)

  const EmptyMessage := "Config file is empty"
  const NotStringKeysMessage := "The loaded YAML data is not a dictionary with string keys"
  const NotFoundMessage := "Config file not found"
  const ParsePrefix := "Error parsing config file: "

  predicate StringKeys(entries: seq<(Yaml, Yaml)>) {
    forall k :: 0 <= k < |entries| ==> entries[k].0.YStr?
  }

  /** `load_config`: the document must be a mapping whose keys are all
      strings; it is then returned as it was parsed. */
  function LoadConfig(outcome: ParseOutcome): (r: Result<seq<(Yaml, Yaml)>, Error>)
    ensures r.Success? <==> outcome.Parsed? && outcome.doc.YMap? && StringKeys(outcome.doc.entries)
    ensures r.Success? ==> r.value == outcome.doc.entries && StringKeys(r.value)
    ensures outcome == FileMissing ==> r == Failure(FileNotFoundError(NotFoundMessage))
    ensures outcome.SyntaxError? ==> r == Failure(ValueError(ParsePrefix + outcome.detail))
    ensures outcome == Parsed(YNull) ==> r == Failure(ValueError(EmptyMessage))
    ensures outcome.Parsed? && outcome.doc != YNull && !(outcome.doc.YMap? && StringKeys(outcome.doc.entries)) ==>
              r == Failure(TypeError(NotStringKeysMessage))
  {
    match outcome
    case FileMissing => Failure(FileNotFoundError(NotFoundMessage))
    case SyntaxError(d) => Failure(ValueError(ParsePrefix + d))
    case Parsed(doc) =>
      if doc == YNull then Failure(ValueError(EmptyMessage))
      else if !doc.YMap? || !StringKeys(doc.entries) then Failure(TypeError(NotStringKeysMessage))
      else Success(doc.entries)
  }

  /** The position of the entry `config[key]` reads: a later entry with the
      same key overrides an earlier one, as building a Python dict from the
      document does. */
  function LastIndex(entries: seq<(Yaml, Yaml)>, key: string): (k: Option<nat>)
    ensures k.None? <==> forall m :: 0 <= m < |entries| ==> entries[m].0 != YStr(key)
    ensures k.Some? ==> k.value < |entries| && entries[k.value].0 == YStr(key)
    ensures k.Some? ==> forall m :: k.value < m < |entries| ==> entries[m].0 != YStr(key)
  {
    if |entries| == 0 then None
    else if entries[|entries| - 1].0 == YStr(key) then Some(|entries| - 1)
    else LastIndex(entries[..|entries| - 1], key)
  }

  /** The five top-level sections the accessors read. */
  datatype SectionKey = InputFormat | OutputFormat | DataCleaning | DataNormalization | FeatureEngineering

  function KeyName(k: SectionKey): string {
    match k
    case InputFormat => "input_format"
    case OutputFormat => "output_format"
    case DataCleaning => "data_cleaning"
    case DataNormalization => "data_normalization"
    case FeatureEngineering => "feature_engineering"
  }

  function MissingMessage(k: SectionKey): string {
    match k
    case InputFormat => "input file format not found in config file"
    case OutputFormat => "output file format not found in config file"
    case DataCleaning => "data_cleaning config not found in config file"
    case DataNormalization => "data_normalization config not found in config file"
    case FeatureEngineering => "feature_engineering config not found in config file"
  }

  /** The `input_format`, `output_format`, `cleaning_config`,
      `normalization_config` and `feature_engineering_config` properties:
      the value under the section's key, or a `ValueError` naming the
      section when the key is absent. */
  function Get(config: seq<(Yaml, Yaml)>, key: SectionKey): (r: Result<Yaml, Error>)
    ensures r.Failure? <==> forall k :: 0 <= k < |config| ==> config[k].0 != YStr(KeyName(key))
    ensures r.Failure? ==> r.error == ValueError(MissingMessage(key))
    ensures r.Success? ==> exists k :: 0 <= k < |config| && config[k] == (YStr(KeyName(key)), r.value)
  {
    match LastIndex(config, KeyName(key))
    case None => Failure(ValueError(MissingMessage(key)))
    case Some(k) => Success(config[k].1)
  }

  /** Sections are independent: setting a section last makes it read back
      that value, and leaves every other section as it was. */
  lemma SetThenGet(config: seq<(Yaml, Yaml)>, key: SectionKey, other: SectionKey, v: Yaml)
    requires other != key
    ensures Get(config + [(YStr(KeyName(key)), v)], key) == Success(v)
    ensures Get(config + [(YStr(KeyName(other)), v)], key) == Get(config, key)
  {
    var set1 := config + [(YStr(KeyName(key)), v)];
    var set2 := config + [(YStr(KeyName(other)), v)];
    assert LastIndex(set1, KeyName(key)) == Some(|config|);
    assert KeyName(other) != KeyName(key);
    assert set2[..|config|] == config;
    assert LastIndex(set2, KeyName(key)) == LastIndex(config, KeyName(key));
  }

  /** Loading a well-formed document and reading a section of it yields the
      entry written last under that section's key, wherever it sits. */
  lemma LoadThenGet(entries: seq<(Yaml, Yaml)>, key: SectionKey, k: nat, v: Yaml)
    requires StringKeys(entries) && k < |entries| && entries[k] == (YStr(KeyName(key)), v)
    requires forall m :: k < m < |entries| ==> entries[m].0 != YStr(KeyName(key))
    ensures LoadConfig(Parsed(YMap(entries))).Success?
    ensures Get(LoadConfig(Parsed(YMap(entries))).value, key) == Success(v)
  {
    assert LastIndex(entries, KeyName(key)) == Some(k);
  }
}
