/** The adapter options of cache.go and the defaults New fills in. The ini configuration
    consulted for defaults is never loaded, so it is always the empty file. */
module Options {
  import opened Wrappers
  import opened GoText

  /** Options. */
  datatype Options = Options(
    adapter: string,         // name of the adapter
    adapterConfig: string,   // adapter configuration (for the file adapter: its directory)
    interval: int,           // GC interval in seconds
    occupyMode: bool,
    section: string)         // configuration section name

  /** The zero Options value. */
  const ZeroOptions: Options := Options("", "", 0, false, "")

  /** An ini file: sections of keys with their texts. */
  datatype IniFile = IniFile(sections: map<string, map<string, string>>)

  /** The package variable `cfg`: declared and never assigned. */
  const cfg: Option<IniFile> := None

  /** Config: the loaded configuration, or an empty one. */
  function Config(): (r: IniFile)
    ensures forall s :: s in r.sections ==> r.sections[s] == map[]
  {
    match cfg
    case Some(f) => f
    case None => IniFile(map[])
  }

  /** The text of a key in a section, "" when either is missing. */
  function KeyText(f: IniFile, section: string, key: string): string
  {
    if section in f.sections && key in f.sections[section] then f.sections[section][key] else ""
  }

  /** Key.MustString: the key's text, or the default when it is empty. */
  function MustString(f: IniFile, section: string, key: string, default: string): (r: string)
    ensures KeyText(f, section, key) == "" ==> r == default
    ensures KeyText(f, section, key) != "" ==> r == KeyText(f, section, key)
  {
    var v := KeyText(f, section, key);
    if v == "" then default else v
  }

  /** Key.MustInt: the key's value as a decimal integer, or the default when it does not
      parse. */
  function MustInt(f: IniFile, section: string, key: string, default: int): (r: int)
    ensures ParseInt(KeyText(f, section, key)).err != NoError ==> r == default
    ensures ParseInt(KeyText(f, section, key)).err == NoError ==> r == ParseInt(KeyText(f, section, key)).n
  {
    var p := ParseInt(KeyText(f, section, key));
    if p.err == NoError then p.n else default
  }

  /** Every key of the configuration is empty, so every default is taken. */
  lemma ConfigDefaults(section: string, key: string, s: string, n: int)
    ensures KeyText(Config(), section, key) == ""
    ensures MustString(Config(), section, key, s) == s
    ensures MustInt(Config(), section, key, n) == n
  {
  }

  /** prepareOptions: the first of the given options, with every empty field set from the
      configuration, whose defaults are "cache", "memory", 60 and "cache". */
  method PrepareOptions(options: seq<Options>) returns (opt: Options)
    ensures var o := if |options| > 0 then options[0] else ZeroOptions;
      && opt.section == (if |o.section| == 0 then "cache" else o.section)
      && opt.adapter == (if |o.adapter| == 0 then "memory" else o.adapter)
      && opt.interval == (if o.interval == 0 then 60 else o.interval)
      && opt.adapterConfig == (if |o.adapterConfig| == 0 then "cache" else o.adapterConfig)
      && opt.occupyMode == o.occupyMode
  {
    opt := ZeroOptions;
    if |options| > 0 {
      opt := options[0];
    }
    if |opt.section| == 0 {
      opt := opt.(section := "cache");
    }
    var sec := opt.section;
    ConfigDefaults(sec, "ADAPTER", "memory", 0);
    ConfigDefaults(sec, "INTERVAL", "", 60);
    ConfigDefaults(sec, "ADAPTER_CONFIG", "cache", 0);
    if |opt.adapter| == 0 {
      opt := opt.(adapter := MustString(Config(), sec, "ADAPTER", "memory"));
    }
    if opt.interval == 0 {
      opt := opt.(interval := MustInt(Config(), sec, "INTERVAL", 60));
    }
    if |opt.adapterConfig| == 0 {
      opt := opt.(adapterConfig := MustString(Config(), sec, "ADAPTER_CONFIG", "cache"));
    }
  }
}
