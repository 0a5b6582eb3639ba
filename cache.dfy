/** The adapter registry of cache.go: adapters register under a name once, and New and
    NewCacher look an adapter up by name and start it. The package registers three
    adapters; the file adapter is modelled, the redis and badger adapters are known only
    by name. */
module Cache {
  import opened Wrappers
  import opened Errors
  import opened Options
  import opened FileStore

  /** A registered adapter: the file adapter, or the redis or badger adapter, whose
      operations are not part of this model. */
  datatype Adapter = FileAdapter(cache: FileCache) | RedisAdapter | BadgerAdapter

  /** The package's adapters map. */
  class Registry {
    var adapters: map<string, Adapter>

    /** The registry after the init functions of badger.go, file.go and redis.go have run. */
    constructor (md5: Digest, disk: Disk)
      ensures adapters.Keys == {"badger", "file", "redis"}
      ensures adapters["badger"] == BadgerAdapter && adapters["redis"] == RedisAdapter
      ensures adapters["file"].FileAdapter? && fresh(adapters["file"].cache)
      ensures adapters["file"].cache.md5 == md5 && adapters["file"].cache.disk == disk
    {
      var file := new FileCache(md5, disk);
      adapters := map["badger" := BadgerAdapter, "file" := FileAdapter(file), "redis" := RedisAdapter];
    }

    /** Register: a nil adapter (None) and a name used before both panic, leaving the
        registry as it was; otherwise the name now maps to the adapter and nothing else
        changes. */
    method Register(name: string, adapter: Option<Adapter>) returns (err: Option<Error>)
      modifies this
      ensures adapter.None? ==> err == Some(Panic(NilAdapter)) && adapters == old(adapters)
      ensures adapter.Some? && name in old(adapters) ==>
        err == Some(Panic(DuplicateAdapter(name))) && adapters == old(adapters)
      ensures adapter.Some? && name !in old(adapters) ==>
        err == None && adapters == old(adapters)[name := adapter.value]
    {
      if adapter.None? {
        return Some(Panic(NilAdapter));
      }
      if name in adapters {
        return Some(Panic(DuplicateAdapter(name)));
      }
      adapters := adapters[name := adapter.value];
      return None;
    }

    /** NewCacher: an unknown name is an error and starts nothing; a known adapter is
        returned with what its StartAndGC gives. The file adapter's sets its directory and
        GC interval and succeeds; `otherStart` is what the redis or badger adapter's gives. */
    method NewCacher(name: string, opt: Options, cwd: string, otherStart: Option<Error>)
      returns (c: Option<Adapter>, err: Option<Error>)
      modifies if name in adapters && adapters[name].FileAdapter? then {adapters[name].cache} else {}
      ensures name !in adapters ==> c == None && err == Some(UnknownAdapter(name))
      ensures name in adapters ==> c == Some(adapters[name])
      ensures name in adapters && !adapters[name].FileAdapter? ==> err == otherStart
      ensures name in adapters && adapters[name].FileAdapter? ==>
        var fc := adapters[name].cache;
        && err == None
        && fc.rootPath == RootFor(cwd, opt.adapterConfig) && fc.interval == opt.interval
        && fc.disk == old(fc.disk)
    {
      if name !in adapters {
        return None, Some(UnknownAdapter(name));
      }
      c := Some(adapters[name]);
      match adapters[name] {
        case FileAdapter(fc) =>
          err := fc.StartAndGC(opt, cwd);
        case _ =>
          err := otherStart;
      }
    }

    /** New: the adapter named by the prepared options, started with them. */
    method New(options: seq<Options>, cwd: string, otherStart: Option<Error>)
      returns (c: Option<Adapter>, err: Option<Error>)
      modifies set a | a in adapters.Values && a.FileAdapter? :: a.cache
      ensures var name := Selected(options);
        && (name !in adapters ==> c == None && err == Some(UnknownAdapter(name)))
        && (name in adapters ==> c == Some(adapters[name]))
        && (name in adapters && !adapters[name].FileAdapter? ==> err == otherStart)
        && (name in adapters && adapters[name].FileAdapter? ==>
              var fc := adapters[name].cache;
              && err == None
              && fc.interval == (if First(options).interval == 0 then 60 else First(options).interval)
              && fc.rootPath == RootFor(cwd, if First(options).adapterConfig == "" then "cache"
                                             else First(options).adapterConfig))
    {
      var opt := PrepareOptions(options);
      if opt.adapter in adapters && adapters[opt.adapter].FileAdapter? {
        assert adapters[opt.adapter] in adapters.Values;
      }
      c, err := NewCacher(opt.adapter, opt, cwd, otherStart);
    }
  }

  /** The options New starts from: the first given, or the zero value. */
  function First(options: seq<Options>): (r: Options)
    ensures |options| == 0 ==> r == ZeroOptions
    ensures |options| > 0 ==> r == options[0]
  {
    if |options| > 0 then options[0] else ZeroOptions
  }

  /** The adapter New looks up: the one named in the options, "memory" when none is. */
  function Selected(options: seq<Options>): (r: string)
    ensures r != ""
    ensures First(options).adapter != "" ==> r == First(options).adapter
  {
    if First(options).adapter == "" then "memory" else First(options).adapter
  }

  /** New without an adapter name picks "memory", which none of the package's adapters
      registers. */
  lemma DefaultIsMemory(options: seq<Options>)
    requires forall i :: 0 <= i < |options| ==> options[i].adapter == ""
    ensures Selected(options) == "memory"
    ensures Selected(options) !in {"badger", "file", "redis"}
  {
  }
}
