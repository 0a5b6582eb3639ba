/** The file-backed cache adapter of file.go. The file system is a map from a cleaned path
    (its list of steps) to what the file holds: an item, or bytes gob cannot decode. Each
    operation is specified by a function from the old files to its result and the new
    files; the class FileCache performs the same steps on its own state. The md5 digest,
    the clock, the working directory and the walk order are parameters. */
module FileStore {
  import opened Wrappers
  import opened GoText
  import opened Values
  import opened Errors
  import opened Codec
  import opened Options

  /** A cleaned file path: its steps. */
  type Path = seq<string>

  predicate IsHexDigit(c: char)
  {
    '0' <= c <= '9' || 'a' <= c <= 'f'
  }

  /** What hex.EncodeToString(md5.Sum(..)) gives: 32 lowercase hex digits. */
  predicate IsHexDigest(h: string)
  {
    |h| == 32 && forall i :: 0 <= i < |h| ==> IsHexDigit(h[i])
  }

  /** The key digest: any function into 32-digit lowercase hex strings. */
  type Digest = f: string -> string | forall s :: IsHexDigest(f(s))
    witness (s: string) => "00000000000000000000000000000000"

  /** A value Set stores as itself (isNotNumber is false for it). */
  type ScalarValue = v: Value | !IsNotNumber(v) && InRange(v) witness Bool(false)

  /** A value the model passes to json.Marshal. */
  type JsonValue = v: Value | WellFormed(v) witness Nil

  /** Item.Val as Set leaves it: a scalar, or the bytes json.Marshal gives for anything
      else (nil bytes for a value it refuses). */
  datatype Payload = Scalar(v: ScalarValue) | Json(doc: JsonValue)

  /** Item. */
  datatype Item = Item(val: Payload, created: int, expire: int)
  {
    /** hasExpired, at the Unix time `now`. */
    predicate HasExpired(now: int)
    {
      expire > 0 && now - created >= expire
    }
  }

  /** A file of the cache: a decodable item, or anything gob cannot decode. */
  datatype FileEntry = Stored(item: Item) | Corrupt

  type Disk = map<Path, FileEntry>

  /** A result together with the files after the call. */
  datatype After<T> = After(res: T, disk: Disk)

  // ------------------------------------------------------------------ paths

  /** "/" and the text before the first "_" of the key, or "" for a key without "_". */
  function BucketPart(key: string): string
  {
    var keys := Split(key, "_");
    if |keys| >= 2 then "/" + keys[0] else ""
  }

  /** filepath: root[/bucket]/h[0]/h[1]/h, cleaned, for the digest h of the whole key. */
  function PathFor(root: string, md5: Digest, key: string): Path
  {
    var hash := md5(key);
    Segments(root + BucketPart(key) + "/" + [hash[0]] + "/" + [hash[1]] + "/" + hash)
  }

  // ------------------------------------------------------------- one file

  /** The payload Set builds: JSON for a value isNotNumber accepts, the value otherwise. */
  function Encoded(v: Value): (r: Payload)
    requires WellFormed(v)
    ensures r.Json? <==> IsNotNumber(v)
    ensures r.Json? ==> r.doc == v
    ensures r.Scalar? ==> r.v == v
  {
    if IsNotNumber(v) then Json(v) else Scalar(v)
  }

  /** What Get returns for a live item: the %v text of a scalar, the JSON decoding of
      anything else (the nil []byte itself when json.Marshal refused the value). */
  function Shown(p: Payload): (r: Value)
    ensures WellFormed(r)
  {
    match p
    case Scalar(v) => Str(Sprint(v))
    case Json(doc) => JsonDecode(doc)
  }

  /** Set: the file of the key now holds the value, the time and the TTL. */
  function SetSpec(disk: Disk, p: Path, v: Value, now: int, expire: int): Disk
    requires WellFormed(v)
  {
    disk[p := Stored(Item(Encoded(v), now, expire))]
  }

  /** read: the item in the file, or why it cannot be had. */
  function ReadSpec(disk: Disk, p: Path): Outcome<Item>
  {
    if p !in disk then Fail(NoSuchFile)
    else match disk[p]
      case Corrupt => Fail(Undecodable)
      case Stored(item) => Ok(item)
  }

  /** Get: an expired item's file is removed and nil comes back without an error. */
  function GetSpec(disk: Disk, p: Path, now: int): (r: After<Outcome<Value>>)
    ensures r.res.Ok? ==> WellFormed(r.res.value) && !r.res.value.StrMap? && !r.res.value.NilStrMap?
  {
    match ReadSpec(disk, p)
    case Fail(e) => After(Fail(e), disk)
    case Ok(item) =>
      if item.HasExpired(now) then After(Ok(Nil), disk - {p})
      else After(Ok(Shown(item.val)), disk)
  }

  /** os.Remove of a file. */
  function RemoveSpec(disk: Disk, p: Path): After<Option<Error>>
  {
    if p in disk then After(None, disk - {p}) else After(Some(NoSuchFile), disk)
  }

  /** The last element of the path is ".", which os.RemoveAll refuses. */
  predicate EndsWithDot(path: string)
  {
    path == "." || (|path| >= 2 && path[|path| - 1] == '.' && path[|path| - 2] == '/')
  }

  /** The path lies in the directory (or is it). */
  predicate Under(p: Path, dir: Path)
  {
    |dir| <= |p| && p[..|dir|] == dir
  }

  /** os.RemoveAll: nothing for "", an error for a path ending in "/.", else every file
      in the directory (or the file itself). */
  function RemoveAllSpec(disk: Disk, path: string): After<Option<Error>>
  {
    if path == "" then After(None, disk)
    else if EndsWithDot(path) then After(Some(InvalidPath), disk)
    else After(None, map q | q in disk && !Under(q, Segments(path)) :: disk[q])
  }

  /** The counter step of Incr (up) or Decr on a stored payload; JSON bytes are not
      int-type. */
  function Bump(p: Payload, up: bool): (r: Counted)
    ensures r.err == None ==> r.val.Num? && InRange(r.val)
  {
    match p
    case Json(_) => Counted(Nil, Some(NotIntType))
    case Scalar(v) => if up then Incr(v) else Decr(v)
  }

  /** Incr / Decr: read without an expiry check, step, and Set again with the old TTL. */
  function CounterSpec(disk: Disk, p: Path, now: int, up: bool): After<Option<Error>>
  {
    match ReadSpec(disk, p)
    case Fail(e) => After(Some(e), disk)
    case Ok(item) =>
      var c := Bump(item.val, up);
      if c.err.Some? then After(c.err, disk)
      else After(None, SetSpec(disk, p, c.val, now, item.expire))
  }

  /** Clear: without "_" the directory root/key goes, with "_" only the key's own file. */
  function ClearSpec(disk: Disk, root: string, md5: Digest, key: string): After<Option<Error>>
  {
    if !Contains(key, "_") then RemoveAllSpec(disk, root + "/" + key)
    else RemoveSpec(disk, PathFor(root, md5, key))
  }

  /** The rest of a GC walk: expired items go; the first file that cannot be read or
      decoded stops the walk. */
  function SweepFrom(disk: Disk, order: seq<Path>, now: int): Disk
    decreases |order|
  {
    if order == [] then disk
    else
      var p := order[0];
      if p !in disk || disk[p].Corrupt? then disk
      else SweepFrom(if disk[p].item.HasExpired(now) then disk - {p} else disk, order[1..], now)
  }

  /** One run of startGC over the files in walk order; the result says whether it
      schedules the next run. */
  function SweepSpec(disk: Disk, order: seq<Path>, now: int, interval: int): After<bool>
  {
    if interval < 1 then After(false, disk) else After(true, SweepFrom(disk, order, now))
  }

  /** Expire as written: the Duration's count of nanoseconds becomes the TTL in seconds. */
  function ExpireSpec(disk: Disk, p: Path, expire: int, now: int): After<bool>
  {
    if p !in disk then After(false, disk)
    else
      var g := GetSpec(disk, p, now);
      match g.res
      case Fail(_) => After(false, g.disk)
      case Ok(v) => After(true, SetSpec(g.disk, p, v, now, expire))
  }

  /** A Duration's whole seconds, truncated toward zero as Go's integer division does. */
  function Seconds(d: int): int
  {
    if d >= 0 then d / 1_000_000_000 else -((-d) / 1_000_000_000)
  }

  /** Expire as evidently intended: the TTL is the Duration in seconds. */
  function ExpireSecondsSpec(disk: Disk, p: Path, expire: int, now: int): After<bool>
  {
    ExpireSpec(disk, p, Seconds(expire), now)
  }

  // ------------------------------------------------------------- hashes

  /** A hash as HGetAll returns it: a map[string]string, or nil. */
  predicate IsHash(h: Value)
  {
    h.StrMap? || h.NilStrMap?
  }

  /** The entries of a hash; a nil map has none. */
  function Fields(h: Value): map<string, string>
  {
    if h.StrMap? then h.fields else map[]
  }

  /** A hash as it comes back from JSON: keys and texts with every invalid UTF-8 byte
      replaced by U+FFFD, the greatest original key winning where two keys collide. */
  function JsonHash(h: Value): (r: Value)
    requires IsHash(h)
    ensures IsHash(r) && r.NilStrMap? == h.NilStrMap?
    ensures r.StrMap? ==> r.fields.Keys == DecodedKeys(h.fields.Keys)
  {
    if h.NilStrMap? then h
    else StrMap(map k | k in DecodedKeys(h.fields.Keys) :: Coerce(h.fields[KeySource(h.fields.Keys, k)]))
  }

  /** Every key and text of the hash is valid UTF-8. */
  predicate ValidHash(h: Value)
  {
    forall k :: k in Fields(h) ==> ValidUtf8(k) && ValidUtf8(Fields(h)[k])
  }

  /** A hash of valid UTF-8 comes back from JSON unchanged. */
  lemma JsonHashValid(h: Value)
    requires IsHash(h) && ValidHash(h)
    ensures JsonHash(h) == h
  {
    if h.StrMap? {
      JsonKeysValid(h.fields.Keys);
      forall k | k in h.fields
        ensures Coerce(h.fields[k]) == h.fields[k]
      {
        CoerceValid(h.fields[k]);
      }
      assert JsonHash(h).fields == h.fields;
    }
  }

  /** ToStr's text of every entry of a map. */
  function Texts(entries: map<string, Value>): (r: map<string, string>)
    requires forall k :: k in entries ==> !IsMap(entries[k])
    ensures r.Keys == entries.Keys
    ensures forall k :: k in entries ==> r[k] == ToStr(entries[k], []).value
  {
    map k | k in entries :: ToStr(entries[k], []).value
  }

  /** HGetAll: the ToStr text of every entry of the decoded map; nil when Get gives nil; a
      panic when Get gives anything else. */
  function HGetAllSpec(disk: Disk, p: Path, now: int): (r: After<Outcome<Value>>)
    ensures r.res.Ok? ==> IsHash(r.res.value)
  {
    if p !in disk then After(Fail(IsEmpty), disk)
    else
      var g := GetSpec(disk, p, now);
      match g.res
      case Fail(_) => After(Fail(GetFailed), g.disk)
      case Ok(v) =>
        if v == Nil then After(Ok(NilStrMap), g.disk)
        else if v.Map? then After(Ok(StrMap(Texts(v.entries))), g.disk)
        else After(Fail(Panic(NotAMap)), g.disk)
  }

  /** HMGet: the entries of the hash whose keys are requested. */
  function HMGetSpec(disk: Disk, p: Path, names: seq<string>, now: int): After<Outcome<map<string, string>>>
  {
    if p !in disk then After(Fail(DoesNotExist), disk)
    else
      var a := HGetAllSpec(disk, p, now);
      if a.res.Fail? then After(Fail(a.res.err), a.disk)
      else
        var m := Fields(a.res.value);
        After(Ok(map k | k in m && k in names :: m[k]), a.disk)
  }

  /** HGet: one entry of the hash; any failure is "does not exist" unless HGetAll
      panicked. */
  function HGetSpec(disk: Disk, p: Path, field: string, now: int): After<Outcome<string>>
  {
    if p !in disk then After(Fail(DoesNotExist), disk)
    else
      var a := HGetAllSpec(disk, p, now);
      if a.res.Panicked() then After(Fail(a.res.err), a.disk)
      else if a.res.Fail? || field !in Fields(a.res.value) then After(Fail(DoesNotExist), a.disk)
      else After(Ok(Fields(a.res.value)[field]), a.disk)
  }

  /** The hash after HSet writes the ToStr texts of the new entries into it. */
  function Merged(h: Value, entries: map<string, Value>): (r: Value)
    requires forall k :: k in entries ==> !IsMap(entries[k])
    ensures IsHash(r)
  {
    if h.NilStrMap? && entries == map[] then NilStrMap
    else StrMap(Fields(h) + Texts(entries))
  }

  /** HSet: false for a missing key; true without a write when HGetAll fails; otherwise the
      new entries go into the hash, which is stored again with TTL 0. Data that is
      a map of another type panics, as does writing into a nil hash. */
  function HSetSpec(disk: Disk, p: Path, newData: Value, now: int): After<Outcome<bool>>
    requires WellFormed(newData)
  {
    if p !in disk then After(Ok(false), disk)
    else
      var a := HGetAllSpec(disk, p, now);
      if a.res.Panicked() then After(Fail(a.res.err), a.disk)
      else if a.res.Fail? then After(Ok(true), a.disk)
      else HSetInto(a.disk, p, a.res.value, newData, now)
  }

  /** The part of HSet after HGetAll gave the hash `h`. */
  function HSetInto(disk: Disk, p: Path, h: Value, newData: Value, now: int): After<Outcome<bool>>
    requires IsHash(h) && WellFormed(newData)
  {
    if newData == Nil then After(Ok(true), SetSpec(disk, p, h, now, 0))
    else if newData.Map? then
      if h.NilStrMap? && newData.entries != map[] then After(Fail(Panic(NilMapWrite)), disk)
      else After(Ok(true), SetSpec(disk, p, Merged(h, newData.entries), now, 0))
    else if newData.StrMap? || newData.NilStrMap? then After(Fail(Panic(NotAMap)), disk)
    else After(Fail(DataMustBeMap), disk)
  }

  /** The hash without one entry (deleting from a nil map does nothing). */
  function Without(h: Value, field: string): (r: Value)
    requires IsHash(h)
    ensures IsHash(r)
  {
    if h.StrMap? then StrMap(h.fields - {field}) else h
  }

  /** HDel: the hash is stored again, with TTL 0, without the entry. */
  function HDelSpec(disk: Disk, p: Path, field: string, now: int): After<Option<Error>>
  {
    if p !in disk then After(None, disk)
    else
      var a := HGetAllSpec(disk, p, now);
      if a.res.Panicked() then After(Some(a.res.err), a.disk)
      else if a.res.Fail? then After(None, a.disk)
      else After(None, SetSpec(a.disk, p, Without(a.res.value, field), now, 0))
  }

  /** The data argument of HMSet. */
  datatype Arg =
    | NilArg
    | StructPtr                   // a pointer to a struct
    | Struct(fields: seq<Field>)  // a struct value
    | NonStruct                   // anything else

  /** HMSet: the flattened struct is stored as a map with TTL 0. */
  function HMSetSpec(disk: Disk, p: Path, key: string, data: Arg, now: int): After<Option<Error>>
    requires data.Struct? ==> forall i :: 0 <= i < |data.fields| ==> WellTyped(data.fields[i])
  {
    if key == "" || data.NilArg? then After(Some(ParameterEmpty), disk)
    else if data.StructPtr? then After(Some(ParsingFailed), disk)
    else if data.NonStruct? then After(Some(Panic(NotAStruct)), disk)
    else
      FlattenLeaves(data.fields);
      After(None, SetSpec(disk, p, Map(Flatten(data.fields)), now, 0))
  }

  /** The root directory StartAndGC chooses: the configuration appended to the working
      directory as it is (replacing "./" zero times changes nothing), made absolute. */
  function RootFor(cwd: string, config: string): string
  {
    var r := cwd + "/" + config;
    if HasPrefix(r, "/") then r else "/" + r
  }

  // ------------------------------------------------------------------ loops

  /** The HMSet loop: every field's pair, or its children's pairs, into one map. */
  method CollectValues(fields: seq<Field>) returns (values: map<string, Value>)
    ensures values == Flatten(fields)
  {
    values := map[];
    var i := 0;
    while i < |fields|
      invariant 0 <= i <= |fields|
      invariant values == Flatten(fields[..i])
    {
      assert fields[..i + 1][..i] == fields[..i];
      var tag, val, child := SetValue(fields[i]);
      if child != [] {
        var j := 0;
        while j < |child|
          invariant 0 <= j <= |child|
          invariant values == StoreChildren(Flatten(fields[..i]), child[..j])
        {
          assert child[..j + 1][..j] == child[..j];
          var v := child[j];
          if v.tag != "" || v.val != Nil {
            values := values[v.tag := v.val];
          }
          j := j + 1;
        }
        assert child[..j] == child;
      } else if val != Str("") && val != Nil {
        values := values[tag := val];
      }
      i := i + 1;
    }
    assert fields[..i] == fields;
  }

  /** The HGetAll loop: the ToStr text of every entry. */
  method TextsOf(newVal: map<string, Value>) returns (m: map<string, string>)
    requires forall k :: k in newVal ==> !IsMap(newVal[k])
    ensures m == Texts(newVal)
  {
    m := map[];
    var keys := newVal.Keys;
    while keys != {}
      invariant keys <= newVal.Keys
      invariant m == map k | k in newVal.Keys - keys :: ToStr(newVal[k], []).value
      decreases keys
    {
      var k :| k in keys;
      m := m[k := ToStr(newVal[k], []).value];
      keys := keys - {k};
    }
  }

  /** The HMGet loop: the entries whose keys StringInArray finds among the names. */
  method Requested(m: map<string, string>, names: seq<string>) returns (r: map<string, string>)
    ensures r == map k | k in m && k in names :: m[k]
  {
    r := map[];
    var keys := m.Keys;
    while keys != {}
      invariant keys <= m.Keys
      invariant r == map k | k in m.Keys - keys && k in names :: m[k]
      decreases keys
    {
      var k :| k in keys;
      var found := StringInArray(k, names);
      if found {
        r := r[k := m[k]];
      }
      keys := keys - {k};
    }
  }

  /** The HGet loop: the entry whose key is the field, if any. */
  method Find(m: map<string, string>, field: string) returns (r: Option<string>)
    ensures r == (if field in m then Some(m[field]) else None)
  {
    var keys := m.Keys;
    while keys != {}
      invariant keys <= m.Keys
      invariant field !in m.Keys - keys
      decreases keys
    {
      var k :| k in keys;
      if k == field {
        return Some(m[k]);
      }
      keys := keys - {k};
    }
    return None;
  }

  /** The HSet loop: the ToStr text of every new entry written into the hash; the first
      write into a nil hash panics. */
  method MergeTexts(h: Value, entries: map<string, Value>) returns (r: Outcome<Value>)
    requires IsHash(h) && forall k :: k in entries ==> !IsMap(entries[k])
    ensures h.NilStrMap? && entries != map[] ==> r == Fail(Panic(NilMapWrite))
    ensures !(h.NilStrMap? && entries != map[]) ==> r == Ok(Merged(h, entries))
  {
    var cur := h;
    var keys := entries.Keys;
    while keys != {}
      invariant keys <= entries.Keys
      invariant keys == entries.Keys ==> cur == h
      invariant h.NilStrMap? ==> keys == entries.Keys
      invariant keys != entries.Keys ==>
        cur == StrMap(Fields(h) + map k | k in entries.Keys - keys :: ToStr(entries[k], []).value)
      decreases keys
    {
      var k :| k in keys;
      if cur.NilStrMap? {
        return Fail(Panic(NilMapWrite));
      }
      cur := StrMap(cur.fields[k := ToStr(entries[k], []).value]);
      keys := keys - {k};
    }
    if entries == map[] && h.StrMap? {
      assert Texts(entries).Keys == {};
      assert h.fields + Texts(entries) == h.fields;
    }
    assert entries.Keys - keys == entries.Keys;
    assert (map k | k in entries.Keys - keys :: ToStr(entries[k], []).value) == Texts(entries);
    return Ok(cur);
  }

  // ------------------------------------------------------------------ class

  /** FileCache. */
  class FileCache {
    const md5: Digest
    var rootPath: string
    var interval: int
    var disk: Disk

    /** NewFileCache, over the files already present. */
    constructor (md5: Digest, disk: Disk)
      ensures this.md5 == md5 && rootPath == "" && interval == 0 && this.disk == disk
    {
      this.md5 := md5;
      rootPath := "";
      interval := 0;
      this.disk := disk;
    }

    /** filepath. */
    function FilePath(key: string): Path
      reads this
    {
      PathFor(rootPath, md5, key)
    }

    /** os.Remove. */
    method RemoveFile(p: Path) returns (err: Option<Error>)
      modifies this`disk
      ensures After(err, disk) == RemoveSpec(old(disk), p)
    {
      if p !in disk {
        return Some(NoSuchFile);
      }
      disk := disk - {p};
      return None;
    }

    /** os.RemoveAll. */
    method RemoveTree(path: string) returns (err: Option<Error>)
      modifies this`disk
      ensures After(err, disk) == RemoveAllSpec(old(disk), path)
    {
      if path == "" {
        return None;
      }
      if EndsWithDot(path) {
        return Some(InvalidPath);
      }
      var dir := Segments(path);
      disk := map q | q in disk && !Under(q, dir) :: disk[q];
      return None;
    }

    method Set(key: string, val: Value, expire: int, now: int) returns (err: Option<Error>)
      requires WellFormed(val)
      modifies this`disk
      ensures err == None && disk == SetSpec(old(disk), FilePath(key), val, now, expire)
    {
      var filename := FilePath(key);
      var payload := Encoded(val);
      var item := Item(payload, now, expire);
      disk := disk[filename := Stored(item)];
      return None;
    }

    /** read. */
    method Read(key: string) returns (item: Outcome<Item>)
      ensures item == ReadSpec(disk, FilePath(key))
    {
      var filename := FilePath(key);
      if filename !in disk {
        return Fail(NoSuchFile);
      }
      match disk[filename]
      case Corrupt => return Fail(Undecodable);
      case Stored(it) => return Ok(it);
    }

    method Get(key: string, now: int) returns (val: Outcome<Value>)
      modifies this`disk
      ensures After(val, disk) == GetSpec(old(disk), FilePath(key), now)
    {
      var item := Read(key);
      if item.Fail? {
        return Fail(item.err);
      }
      if item.value.HasExpired(now) {
        var _ := RemoveFile(FilePath(key));
        return Ok(Nil);
      }
      return Ok(Shown(item.value.val));
    }

    /** Delete. */
    method Del(key: string) returns (err: Option<Error>)
      modifies this`disk
      ensures After(err, disk) == RemoveSpec(old(disk), FilePath(key))
    {
      err := RemoveFile(FilePath(key));
    }

    method Incr(key: string, now: int) returns (err: Option<Error>)
      modifies this`disk
      ensures After(err, disk) == CounterSpec(old(disk), FilePath(key), now, true)
    {
      var item := Read(key);
      if item.Fail? {
        return Some(item.err);
      }
      var c := Bump(item.value.val, true);
      if c.err.Some? {
        return c.err;
      }
      err := Set(key, c.val, item.value.expire, now);
    }

    method Decr(key: string, now: int) returns (err: Option<Error>)
      modifies this`disk
      ensures After(err, disk) == CounterSpec(old(disk), FilePath(key), now, false)
    {
      var item := Read(key);
      if item.Fail? {
        return Some(item.err);
      }
      var c := Bump(item.value.val, false);
      if c.err.Some? {
        return c.err;
      }
      err := Set(key, c.val, item.value.expire, now);
    }

    method Exists(key: string) returns (b: bool)
      ensures b <==> FilePath(key) in disk
    {
      b := FilePath(key) in disk;
    }

    method Flush() returns (err: Option<Error>)
      modifies this`disk
      ensures After(err, disk) == RemoveAllSpec(old(disk), rootPath)
    {
      err := RemoveTree(rootPath);
    }

    /** One run of startGC, at time `now`, over the files in the order filepath.Walk visits
        them. The next run is only scheduled (not modelled) when the result is true. */
    method Sweep(now: int, order: seq<Path>) returns (rescheduled: bool)
      modifies this`disk
      ensures After(rescheduled, disk) == SweepSpec(old(disk), order, now, interval)
    {
      if interval < 1 {
        return false;
      }
      var i := 0;
      while i < |order|
        invariant 0 <= i <= |order|
        invariant SweepFrom(disk, order[i..], now) == SweepFrom(old(disk), order, now)
      {
        var p := order[i];
        assert order[i..][0] == p && order[i..][1..] == order[i + 1..];
        if p !in disk || disk[p].Corrupt? {
          break;
        }
        if disk[p].item.HasExpired(now) {
          disk := disk - {p};
        }
        i := i + 1;
      }
      return true;
    }

    /** StartAndGC, in the working directory `cwd`; creating the directory is assumed to
        succeed and the GC goroutine is not started (see Sweep). */
    method StartAndGC(opt: Options, cwd: string) returns (err: Option<Error>)
      modifies this`rootPath, this`interval
      ensures rootPath == RootFor(cwd, opt.adapterConfig) && interval == opt.interval
      ensures err == None
    {
      rootPath := cwd + "/" + opt.adapterConfig;
      interval := opt.interval;
      if !HasPrefix(rootPath, "/") {
        rootPath := "/" + rootPath;
      }
      return None;
    }

    method HMSet(key: string, data: Arg, now: int) returns (err: Option<Error>)
      requires data.Struct? ==> forall i :: 0 <= i < |data.fields| ==> WellTyped(data.fields[i])
      modifies this`disk
      ensures After(err, disk) == HMSetSpec(old(disk), FilePath(key), key, data, now)
    {
      if key == "" || data.NilArg? {
        return Some(ParameterEmpty);
      }
      if data.StructPtr? {
        return Some(ParsingFailed);
      }
      if data.NonStruct? {
        return Some(Panic(NotAStruct));
      }
      var values := CollectValues(data.fields);
      FlattenLeaves(data.fields);
      err := Set(key, Map(values), 0, now);
    }

    method HGetAll(key: string, now: int) returns (data: Outcome<Value>)
      modifies this`disk
      ensures After(data, disk) == HGetAllSpec(old(disk), FilePath(key), now)
    {
      var present := Exists(key);
      if !present {
        return Fail(IsEmpty);
      }
      var newData := Get(key, now);
      if newData.Fail? {
        return Fail(GetFailed);
      }
      if newData.value == Nil {
        return Ok(NilStrMap);
      }
      if !newData.value.Map? {
        return Fail(Panic(NotAMap));
      }
      var m := TextsOf(newData.value.entries);
      return Ok(StrMap(m));
    }

    method HMGet(key: string, fields: seq<string>, now: int) returns (res: Outcome<map<string, string>>)
      modifies this`disk
      ensures After(res, disk) == HMGetSpec(old(disk), FilePath(key), fields, now)
    {
      var present := Exists(key);
      if !present {
        return Fail(DoesNotExist);
      }
      var data := HGetAll(key, now);
      if data.Fail? {
        return Fail(data.err);
      }
      var newData := Requested(Fields(data.value), fields);
      return Ok(newData);
    }

    method HGet(key: string, field: string, now: int) returns (res: Outcome<string>)
      modifies this`disk
      ensures After(res, disk) == HGetSpec(old(disk), FilePath(key), field, now)
    {
      var present := Exists(key);
      if !present {
        return Fail(DoesNotExist);
      }
      var data := HGetAll(key, now);
      if data.Panicked() {
        return Fail(data.err);
      }
      if data.Ok? {
        var found := Find(Fields(data.value), field);
        if found.Some? {
          return Ok(found.value);
        }
      }
      return Fail(DoesNotExist);
    }

    method HSet(key: string, newData: Value, now: int) returns (res: Outcome<bool>)
      requires WellFormed(newData)
      modifies this`disk
      ensures After(res, disk) == HSetSpec(old(disk), FilePath(key), newData, now)
    {
      var present := Exists(key);
      if !present {
        return Ok(false);
      }
      var data := HGetAll(key, now);
      if data.Panicked() {
        return Fail(data.err);
      }
      if data.Fail? {
        return Ok(true);
      }
      res := WriteInto(key, data.value, newData, now);
    }

    /** The part of HSet after HGetAll gave the hash `h`. */
    method WriteInto(key: string, h: Value, newData: Value, now: int) returns (res: Outcome<bool>)
      requires IsHash(h) && WellFormed(newData)
      modifies this`disk
      ensures After(res, disk) == HSetInto(old(disk), FilePath(key), h, newData, now)
    {
      var data := h;
      if newData != Nil {
        if newData.Map? {
          var merged := MergeTexts(data, newData.entries);
          if merged.Fail? {
            return Fail(merged.err);
          }
          data := merged.value;
        } else if newData.StrMap? || newData.NilStrMap? {
          return Fail(Panic(NotAMap));
        } else {
          return Fail(DataMustBeMap);
        }
      }
      var _ := Set(key, data, 0, now);
      return Ok(true);
    }

    method HDel(key: string, field: string, now: int) returns (err: Option<Error>)
      modifies this`disk
      ensures After(err, disk) == HDelSpec(old(disk), FilePath(key), field, now)
    {
      var present := Exists(key);
      if !present {
        return None;
      }
      var data := HGetAll(key, now);
      if data.Panicked() {
        return Some(data.err);
      }
      if data.Fail? {
        return None;
      }
      err := Set(key, Without(data.value, field), 0, now);
    }

    /** Expire, with the Duration given as its count of nanoseconds. */
    method Expire(key: string, expire: int, now: int) returns (ok: bool)
      modifies this`disk
      ensures After(ok, disk) == ExpireSpec(old(disk), FilePath(key), expire, now)
    {
      var present := Exists(key);
      if !present {
        return false;
      }
      var data := Get(key, now);
      if data.Ok? {
        var err := Set(key, data.value, expire, now);
        if err == None {
          return true;
        }
      }
      return false;
    }

    method Clear(key: string) returns (err: Option<Error>)
      modifies this`disk
      ensures After(err, disk) == ClearSpec(old(disk), rootPath, md5, key)
    {
      if !Contains(key, "_") {
        err := RemoveTree(rootPath + "/" + key);
      } else {
        err := RemoveFile(FilePath(key));
      }
    }
  }
}
