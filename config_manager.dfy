/** The application's settings: a string-to-string map read from a properties file,
    with a default set written on first run and a validity check on the credentials. */
module Config {
  import opened Text

  const TwitterApiKey: string := "twitter.api.key"
  const TwitterApiSecret: string := "twitter.api.secret"
  const TwitterAccessToken: string := "twitter.access.token"
  const TwitterAccessSecret: string := "twitter.access.secret"
  const AgentMeshApiKey: string := "agentmesh.api.key"
  const AgentMeshEndpoint: string := "agentmesh.endpoint"
  const AutoReplyEnabled: string := "twitter.auto.reply"
  const SearchKeywords: string := "twitter.search.keywords"

  const DefaultEndpoint: string := "https://api.solace.cloud/agent-mesh/v1"
  /** "solace,pubsub+,event mesh,event portal,event broker", written piece by piece. */
  const DefaultKeywords: string :=
    "solace" + "," + "pubsub+" + "," + "event mesh" + "," + "event portal" + "," + "event broker"

  /** The five settings that must be non-empty for the configuration to be valid. */
  const Credentials: seq<string> :=
    [TwitterApiKey, TwitterApiSecret, TwitterAccessToken, TwitterAccessSecret, AgentMeshApiKey]

  /** What loading finds on disk: no file, a file whose reading failed after the given
      pairs were read, or a file read completely. */
  datatype ConfigFile =
    | Absent
    | Unreadable(partial: map<string, string>)
    | Readable(pairs: map<string, string>)

  /** The values written by setDefaultConfig. */
  function Defaults(): map<string, string>
  {
    map[TwitterApiKey := "", TwitterApiSecret := "", TwitterAccessToken := "",
        TwitterAccessSecret := "", AgentMeshApiKey := "",
        AgentMeshEndpoint := DefaultEndpoint,
        AutoReplyEnabled := "false",
        SearchKeywords := DefaultKeywords]
  }

  /** Properties.getProperty(key, default). */
  function LookupOr(properties: map<string, string>, key: string, default: string): string
  {
    if key in properties then properties[key] else default
  }

  /** Boolean.parseBoolean: "true" in any mix of cases, nothing else. */
  function ParseBoolean(s: string): (b: bool)
    ensures b <==> Lower(s) == "true"
  {
    EqualsIgnoreCaseLower(s, "true");
    EqualsIgnoreCase(s, "true")
  }

  /** Loaded, and the four Twitter credentials and the Agent Mesh key are all non-empty. */
  predicate IsValid(properties: map<string, string>, loaded: bool)
  {
    loaded &&
    LookupOr(properties, TwitterApiKey, "") != "" &&
    LookupOr(properties, TwitterApiSecret, "") != "" &&
    LookupOr(properties, TwitterAccessToken, "") != "" &&
    LookupOr(properties, TwitterAccessSecret, "") != "" &&
    LookupOr(properties, AgentMeshApiKey, "") != ""
  }

  /** The whole state of a ConfigManager. */
  datatype ConfigState = ConfigState(properties: map<string, string>, loaded: bool)

  /** loadConfig: a readable file's pairs overwrite the map and mark it loaded; pairs read
      before a failure are kept but the flag stays as it was; with no file the defaults
      are written and the flag is left as it was too. */
  function Load(c: ConfigState, file: ConfigFile): ConfigState
  {
    match file
    case Readable(pairs) => ConfigState(c.properties + pairs, true)
    case Unreadable(partial) => c.(properties := c.properties + partial)
    case Absent => c.(properties := c.properties + Defaults())
  }

  /** A run of setConfig calls, in order. */
  function ApplySettings(c: ConfigState, settings: seq<(string, string)>): ConfigState
    decreases |settings|
  {
    if settings == [] then c
    else
      var (key, value) := settings[0];
      ApplySettings(c.(properties := c.properties[key := value]), settings[1..])
  }

  class ConfigManager {
    var properties: map<string, string>
    var configLoaded: bool

    function State(): ConfigState
      reads this
    {
      ConfigState(properties, configLoaded)
    }

    /** Starts from an empty, not-loaded map and loads. */
    constructor (file: ConfigFile)
      ensures State() == Load(ConfigState(map[], false), file)
    {
      properties := map[];
      configLoaded := false;
      new;
      LoadConfig(file);
    }

    method LoadConfig(file: ConfigFile)
      modifies this
      ensures State() == Load(old(State()), file)
    {
      match file
      case Readable(pairs) =>
        properties := properties + pairs;
        configLoaded := true;
      case Unreadable(partial) =>
        properties := properties + partial;
      case Absent =>
        SetDefaultConfig();
        var _ := SaveConfig();
    }

    /** What Properties.store writes: every pair, and nothing in memory changes. */
    method SaveConfig() returns (written: map<string, string>)
      ensures written == properties
    {
      written := properties;
    }

    method SetDefaultConfig()
      modifies this`properties
      ensures properties == old(properties) + Defaults()
    {
      properties := properties + Defaults();
    }

    /** getConfig: the stored value, or "" for an absent key. */
    function GetConfig(key: string): (value: string)
      reads this
      ensures key in properties ==> value == properties[key]
      ensures key !in properties ==> value == ""
    {
      LookupOr(properties, key, "")
    }

    /** getBooleanConfig: an absent key reads as "false". */
    function GetBooleanConfig(key: string): (b: bool)
      reads this
      ensures b <==> key in properties && Lower(properties[key]) == "true"
    {
      ParseBoolean(LookupOr(properties, key, "false"))
    }

    method SetConfig(key: string, value: string)
      modifies this`properties
      ensures properties == old(properties)[key := value]
      ensures GetConfig(key) == value
    {
      properties := properties[key := value];
    }

    /** isConfigValid: loaded, and all five credentials present and non-empty. */
    function IsConfigValid(): (b: bool)
      reads this
      ensures b <==> configLoaded && forall k | k in Credentials :: k in properties && properties[k] != ""
    {
      ValidityMeaning(properties, configLoaded);
      IsValid(properties, configLoaded)
    }
  }

  // ---------------------------------------------------------------------------
  // Properties of the model
  // ---------------------------------------------------------------------------

  /** The default set has exactly eight keys. */
  lemma DefaultsKeys()
    ensures Defaults().Keys == {TwitterApiKey, TwitterApiSecret, TwitterAccessToken,
                                TwitterAccessSecret, AgentMeshApiKey, AgentMeshEndpoint,
                                AutoReplyEnabled, SearchKeywords}
    ensures |Defaults().Keys| == 8
  {
  }

  /** The defaults are five empty credentials, the endpoint, auto-reply off and the
      five-keyword list. */
  lemma DefaultsContents()
    ensures forall k | k in Credentials :: k in Defaults() && Defaults()[k] == ""
    ensures Defaults()[AgentMeshEndpoint] == DefaultEndpoint
    ensures Defaults()[AutoReplyEnabled] == "false"
    ensures Defaults()[SearchKeywords] == DefaultKeywords
  {
  }

  /** After setting a key, reading it gives the new value and every other key reads as before. */
  lemma SetThenGet(properties: map<string, string>, key: string, value: string, other: string)
    requires other != key
    ensures LookupOr(properties[key := value], key, "") == value
    ensures LookupOr(properties[key := value], other, "") == LookupOr(properties, other, "")
  {
  }

  /** Reading a boolean: true exactly for "true" ignoring case; an absent key gives false. */
  lemma BooleanConfigMeaning(properties: map<string, string>, key: string)
    ensures ParseBoolean(LookupOr(properties, key, "false")) <==>
              key in properties && Lower(properties[key]) == "true"
    ensures key !in properties ==> !ParseBoolean(LookupOr(properties, key, "false"))
    ensures ParseBoolean("TRUE") && ParseBoolean("True") && !ParseBoolean("false") && !ParseBoolean("yes")
  {
    assert Lower("TRUE") == "true";
    assert Lower("True") == "true";
    assert Lower("false") != "true";
    assert Lower("yes") != "true";
  }

  /** Validity needs the loaded flag; once loaded it is exactly "all five credentials
      non-empty", whatever the endpoint, auto-reply and keyword values are. */
  lemma ValidityMeaning(properties: map<string, string>, loaded: bool)
    ensures !loaded ==> !IsValid(properties, loaded)
    ensures loaded ==> (IsValid(properties, loaded) <==>
              forall k | k in Credentials :: k in properties && properties[k] != "")
  {
  }

  /** Setting a key other than the five credentials never changes validity. */
  lemma ValidityIgnoresOtherKeys(properties: map<string, string>, loaded: bool, key: string, value: string)
    requires key !in Credentials
    ensures IsValid(properties[key := value], loaded) == IsValid(properties, loaded)
  {
  }

  /** setConfig never touches the loaded flag. */
  lemma {:induction false} SettingsKeepLoaded(c: ConfigState, settings: seq<(string, string)>)
    ensures ApplySettings(c, settings).loaded == c.loaded
    decreases |settings|
  {
    if settings != [] {
      var (key, value) := settings[0];
      SettingsKeepLoaded(c.(properties := c.properties[key := value]), settings[1..]);
    }
  }

  /** The last setConfig of a key decides its value. */
  lemma {:induction false} SettingsLastWins(c: ConfigState, settings: seq<(string, string)>, key: string, value: string)
    ensures LookupOr(ApplySettings(c, settings + [(key, value)]).properties, key, "") == value
    decreases |settings|
  {
    if settings == [] {
      assert settings + [(key, value)] == [(key, value)];
    } else {
      var (k, v) := settings[0];
      assert (settings + [(key, value)])[1..] == settings[1..] + [(key, value)];
      SettingsLastWins(c.(properties := c.properties[k := v]), settings[1..], key, value);
    }
  }

  /** First run: with no file the eight defaults are installed and the flag stays false, so
      no sequence of setConfig calls makes the configuration valid until a later load of a
      readable file. */
  lemma FirstRunTrap(settings: seq<(string, string)>)
    ensures Load(ConfigState(map[], false), Absent) == ConfigState(Defaults(), false)
    ensures !IsValid(ApplySettings(Load(ConfigState(map[], false), Absent), settings).properties,
                     ApplySettings(Load(ConfigState(map[], false), Absent), settings).loaded)
  {
    assert map[] + Defaults() == Defaults();
    SettingsKeepLoaded(Load(ConfigState(map[], false), Absent), settings);
  }

  /** Loading a readable file overlays its pairs and sets the flag; after that, validity
      depends on the credentials alone. */
  lemma LoadReadable(c: ConfigState, pairs: map<string, string>)
    ensures Load(c, Readable(pairs)).loaded
    ensures forall k | k in pairs :: LookupOr(Load(c, Readable(pairs)).properties, k, "") == pairs[k]
    ensures forall k | k !in pairs :: LookupOr(Load(c, Readable(pairs)).properties, k, "") == LookupOr(c.properties, k, "")
    ensures IsValid(Load(c, Readable(pairs)).properties, true) <==>
              forall k | k in Credentials :: LookupOr(c.properties + pairs, k, "") != ""
  {
  }

  /** A failed read keeps the flag as it was. */
  lemma LoadUnreadable(c: ConfigState, partial: map<string, string>)
    ensures Load(c, Unreadable(partial)).loaded == c.loaded
    ensures !c.loaded ==> !IsValid(Load(c, Unreadable(partial)).properties, Load(c, Unreadable(partial)).loaded)
  {
  }
}
