# go-cache: the file adapter, its helpers and the adapter registry

This project models, in Dafny, the core of the Go package `cache` (platship/go-cache):

- the value helpers of `utils.go`: the counters `Incr` and `Decr`, `isNotNumber`, `ToStr` and
  `argInt.Get`, `StringInArray`, and the struct codec `setValue` / `scanValue`;
- the file adapter `FileCache` of `file.go`:
  - `filepath` and `hasExpired`;
  - `Set`, `read`, `Get`, `Del`, `Incr`, `Decr`, `Exists` and `Flush`;
  - one `startGC` sweep and `StartAndGC`;
  - the hash family `HMSet`, `HMScan`, `HMGet`, `HGet`, `HSet`, `HDel` and `HGetAll`;
  - `Expire` and `Clear`;
- the registry and options of `cache.go`: `Register`, `NewCacher`, `New`, `prepareOptions`
  and `Config`;
- the INFO parsing of `redis.go`: `splitInfo`, `isMemoryLine` and `parseMemoryInfo`.

The modules:

- `Values` models the Go values a cache holds: integers of every width, floats as their
  text, strings, bools, byte slices (a nil one apart), nil, and one-level maps.
- `FileStore` models the cache directory as a map from a path (its list of segments) to a
  stored item or an undecodable file. Every operation has a specification function that
  returns the result together with the new map. `FileStore.FileCache` is a class whose
  methods update its `disk`, `rootPath` and `interval` fields; each method is proved equal
  to its specification.
- `FileProps` proves what the operations promise. `Codec` covers the struct codec.
  `Options`, `Cache` and `RedisInfo` cover the rest.
- `GoText` holds the parts of Go's standard library the core relies on: strings.Split,
  strconv's integer formatting and parsing, `%v` of a float, UTF-8 validity and its
  coercion by JSON, base64, and Go's byte order on strings.

Values the program reads from its environment are parameters:

- the current Unix time `now`;
- the working directory `cwd`;
- the order in which `filepath.Walk` visits files;
- the order in which `range` visits a map;
- the md5 hex digest, a function of type `Digest` whose every output is 32 lowercase
  hexadecimal digits;
- the time parser;
- what the redis or badger adapter's `StartAndGC` returns (`otherStart`).

A Go panic is modelled as the outcome `Panic(reason)`. This covers:

- strconv's panic on an integer base outside 2..36 in `ToStr`;
- the reflect panics of `HMScan` on a nil destination and on a nil struct pointer;
- `HMSet`'s panic on a non-struct;
- `HSet`'s panics;
- a duplicate or nil adapter in `Register`.

The reflect panics of `setValue` and `scanValue` on an unexported field or on an embedded
field that is not a struct are not modelled. The inputs that would raise them cannot be
written (see "## Left out").

Two fmt and encoding/json behaviours are modelled because the program's results depend on
them:

- `Get` prints a float with `%v`, which is the shortest 'g' format (`GoText.FormatG`).
- Every string and map key that goes through JSON has its invalid UTF-8 bytes replaced by
  U+FFFD (`GoText.Coerce`). Keys that become equal collide, and the entry of the greatest
  original key survives.

The code is followed where it differs from a plain reading of its intent:

- `parseMemoryInfo` ranges over the **values** of the `splitInfo` map (`for _, line := range`),
  not over its keys. So its result is not always "0": a value that is itself a memory line
  is reported (see `RedisInfo.AsWrittenReportsValueLine`). For a reply in the INFO format,
  where values hold no ":", the result is "0".

## Model

| member | source | states |
|---|---|---|
| Values.Incr | utils.go:30-48 | int, int32, int64, uint, uint32 and uint64 step up by one in their own width (wrapping), anything else is returned unchanged with the not-int-type error |
| Values.Decr | utils.go:50-80 | an unsigned zero is returned unchanged with the less-than-zero error; other supported values step down by one in their own width, anything else gives the not-int-type error |
| Values.IncrStep | utils.go:30-48 | Incr adds one modulo the width and keeps the kind |
| Values.DecrStep | utils.go:50-80 | Decr subtracts one modulo the width, except at an unsigned zero |
| Values.DecrIncr | utils.go:30-80 | Decr(Incr(v)) == v for every signed counter, and for an unsigned counter below its maximum |
| Values.IncrDecr | utils.go:30-80 | Incr(Decr(v)) == v whenever Decr succeeds |
| Values.UnsignedTopDoesNotRoundTrip | utils.go:30-80 | at the maximum of an unsigned width Incr wraps to zero, where Decr fails |
| Values.IsNotNumberByType | utils.go:82-89 | isNotNumber is false exactly for the fourteen scalar type names and true for nil, byte slices and maps |
| Values.ToStr | utils.go:205-241 | ToStr panics exactly for an integer whose base argument lies outside 2..36; every other covered value gets a text |
| Values.ToStrBase | utils.go:196-232 | an integer is written in base ten without arguments, in the base args[0] when it is in 2..36, and any other base panics |
| Values.ToStrDecimal | utils.go:205-241 | without arguments integers are written in base ten, and ParseInt / ParseUint read the text back as the same number for every width |
| Values.ToStrText | utils.go:205-241 | bools become "true"/"false", strings are kept, byte slices are copied byte for byte |
| Values.BytesText | utils.go:235-236 | string([]byte) keeps the length and every byte |
| Values.SprintAgrees | file.go:95 | %v prints an integer, string or bool as ToStr does, but a float in 'g' form: a million shows as "1e+06", where ToStr gives "1000000" |
| Values.StringInArray | utils.go:180-187 | true exactly when the item is an element of the list |
| Values.JsonDecode | file.go:58-93 | a map holding NaN or an infinity, which json.Marshal refuses, leaves the nil []byte, and nothing else does; any other value json.Unmarshal gives back well formed, never a string map, and acceptable to json.Marshal; it is a map exactly when a map went in (a nil string map gives nil), and its keys are the coerced keys of the map |
| Values.DecodeEntries | file.go:93 | the decoded entries of a map are keyed by its coerced keys, are scalars in range, and hold NaN or an infinity only if the map did |
| Values.DecodeScalar | file.go:93 | a decoded scalar is never an integer (numbers come back as float64) nor a nil []byte (null comes back as nil), is in range, and is NaN or an infinity exactly when the scalar was |
| Values.FormatIntFinite | file.go:93 | the decimal text of an integer is never "NaN", "+Inf" or "-Inf" |
| Values.KeySource | file.go:58-93 | the entry kept under a decoded key comes from an original key that decodes to it, the greatest such key in byte order |
| Values.JsonKeysValid | file.go:58-93 | keys that are valid UTF-8 come back as themselves, each taking its own entry |
| Values.JsonStrMap | file.go:58-93 | a string map comes back with its keys coerced, and with every key and text unchanged when all are valid UTF-8 |
| Values.JsonDecodeIdempotent | file.go:58-93 | what JSON gives back for a value json.Marshal accepts goes through JSON again unchanged; the nil []byte a refused map leaves comes back as nil the second time |
| Values.JsonReplacesInvalid | file.go:58-93 | a lone byte of 0x80 or above, as a string or as a key, comes back as U+FFFD |
| Values.JsonKeysCollide | file.go:58-93 | the keys "\x80" and "\x81" both decode to U+FFFD, and the entry of "\x81" wins |
| GoText.ParseInt | utils.go:150-152 | strconv.ParseInt's result lies in the int64 range, is 0 on a syntax error and the bound of the number's sign on a range error |
| GoText.ParseUint | utils.go:156-158 | strconv.ParseUint's result lies in the uint64 range, is 0 on a syntax error and the maximum on a range error |
| GoText.FormatGPowerOfTen | file.go:95 | 10^k prints as "1e+" and at least two exponent digits for every k >= 6 |
| GoText.FormatGSmallPowerOfTen | file.go:95 | 10^-k prints as "1e-" and at least two exponent digits for every k >= 5 |
| GoText.FormatGSmallIntegral | file.go:95 | a whole number below a million prints as its decimal digits |
| GoText.FormatGMillion | file.go:95 | 1000000 prints as "1e+06" |
| GoText.FormatGHundredThousandth | file.go:95 | 0.00001 prints as "1e-05" |
| GoText.CoerceValid | file.go:58-93 | a valid UTF-8 text comes through JSON unchanged |
| GoText.CoerceIsValid | file.go:58-93 | what JSON gives back is always valid UTF-8 |
| GoText.CoerceChanges | file.go:58-93 | text that is not valid UTF-8 is changed by JSON |
| GoText.LoneHighByte | file.go:58-93 | a lone byte of 0x80 or above is not valid UTF-8 and becomes U+FFFD |
| GoText.AsciiValid | file.go:58-93 | ASCII text is valid UTF-8 |
| GoText.Greatest | file.go:58-93 | a non-empty set of keys has a greatest key in Go's byte order, the last one json.Marshal writes |
| GoText.Base64 | file.go:58 | json.Marshal writes a []byte as base64 text of 4 characters per started 3 bytes, all ASCII |
| Codec.Children | utils.go:92-97 | an embedded struct gives one (tag, value) child per field, each its field's own setValue pair; other fields give none |
| Codec.SetValue | utils.go:91-124 | setValue's tag, value and child list for a field, built by the loop over an embedded struct's fields |
| Codec.NestedEmbeddingDropped | utils.go:92-97 | the children of an anonymous field nested in an anonymous field are lost |
| Codec.StructFieldDropped | utils.go:109-112 | a struct field other than time.Time yields a nil value |
| Codec.EmptyStringKeptOnlyWhenEmbedded | utils.go:92-97 | for every tagged string field holding "", the HMSet loop drops it at top level and keeps it under its tag when it comes from an embedded struct |
| Codec.FlattenFlat | file.go:218-232 | the HMSet map holds a kept field's value under its tag when no later field has that tag |
| Codec.FlattenKeys | file.go:218-232 | every key of the HMSet map of fields that are not embedded is the tag of one of them |
| Codec.ScanKeepsShape | utils.go:133-178 | scanValue changes only a field's value (and an embedded struct's fields) and keeps it well typed |
| Codec.ScanLeavesUntouched | utils.go:145-148 | a field whose redis tag is absent or maps to "" is left as it was |
| Codec.ScanParsing | utils.go:150-175 | int kinds get ParseInt's number and uint kinds ParseUint's, wrapped to the width: 0 on a syntax error, the clamp on a range error, the number itself when it fits; bool is true exactly for "true"; strings are copied; byte slices get the text's bytes; a time is set only when it parses |
| Codec.TextBytesOfBytesText | utils.go:114-165 | a []byte turned into a string and back is unchanged |
| Codec.HashTextAt | file.go:359-375 | for valid UTF-8 keys, the hash text of a key is ToStr of its value after JSON |
| Codec.RestoreField | utils.go:133-178 | scanValue of a restorable field's hash text into its zero value gives the field back |
| Codec.TagMismatchLosesField | utils.go:99-102 | every restorable field whose redis tag differs from its cache tag stays at its zero value after HMSet's text is scanned |
| Codec.InvalidTextNotRestored | utils.go:91-178 | a string field that is not valid UTF-8 is scanned back with its invalid bytes replaced by U+FFFD, so it differs from the stored field |
| Codec.RecordRoundTrip | utils.go:91-178 | for restorable fields (valid UTF-8 tags, strings and bytes; integers within 2^53) with matching tags, scanning the text of the HMSet map into zero values gives the record back |
| Codec.HMScan | file.go:247-262 | a nil destination and a nil struct pointer panic, any other non-pointer-to-struct is a parsing error, and a record's fields are scanned from the map |
| FileProps.ExpiryWindow | file.go:25-28 | an item expires exactly when its TTL is positive and that many seconds have passed since it was created |
| FileProps.BucketOfKey | file.go:42-51 | the bucket is the text before the first "_" and is present exactly when the key contains "_" |
| FileProps.PathShape | file.go:42-51 | filepath gives root[/bucket]/h[0]/h[1]/h for the digest h of the whole key |
| FileProps.PathDistinguishesDigests | file.go:42-51 | keys with different digests never share a file |
| FileProps.PathUnderRoot | file.go:42-51 | every key's file lies under the root directory |
| FileProps.RootUnderWorkingDirectory | file.go:185-193 | StartAndGC's root is the working directory followed by the configured path, even an absolute one |
| FileProps.SetOnlyItsFile | file.go:55-67 | Set writes (value, now, expire) into the key's file and leaves every other file as it was |
| FileProps.GetAfterSet | file.go:82-98 | before it expires, Get returns a stored scalar's %v text ('g' form for a float), or any other value as JSON gives it back, and changes nothing; a map json.Marshal refuses comes back as a nil []byte |
| FileProps.NaNInMapNotRestored | file.go:55-67 | Set of a map holding a float64 NaN stores nil bytes: Get gives a nil []byte and HGetAll panics |
| FileProps.NilBytesReadBackNil | file.go:82-98 | a nil []byte reads back as nil (JSON null), an empty one as the empty string |
| FileProps.SetFortyTwoGetsText | file.go:55-98 | Set(k, 42, 0) followed by Get gives "42" |
| FileProps.GetIntegerReadsBack | file.go:82-98 | the text Get gives for a stored integer parses back to that integer |
| FileProps.GetExpired | file.go:87-90 | Get of an expired item deletes its file and returns nil without an error |
| FileProps.GetFailures | file.go:69-79 | a missing file and an undecodable file are errors that change nothing |
| FileProps.CounterKeepsTTL | file.go:106-133 | Incr and Decr keep the TTL and reset the creation time to now without checking expiry; on an error the file is unchanged |
| FileProps.CounterRoundTrip | file.go:106-133 | Decr after Incr of a stored counter restores the stored number |
| FileProps.CounterOnJson | file.go:106-118 | a JSON-encoded payload is not a counter |
| FileProps.ExpireMissing | file.go:383-386 | Expire of a missing key is false and changes nothing |
| FileProps.ExpireTurnsCounterIntoString | file.go:383-394 | Expire re-stores the text that Get returned, with the Duration's nanosecond count as the TTL, so a later Incr fails |
| FileProps.ExpireOneSecondOutlivesIt | file.go:383-394 | Expire with time.Second leaves the item alive two seconds later |
| FileProps.ExpireSecondsExpiresOnTime | file.go:383-394 | with the Duration taken in seconds the item expires once that many seconds have passed |
| FileProps.ClearRemovesBucket | file.go:401-405 | Clear of a name without "_" removes every key of that bucket and keeps every file outside root/name |
| FileProps.ClearHexDigitRemovesUnbucketed | file.go:401-405 | Clear of one hex digit also removes every unbucketed key whose digest starts with it |
| FileProps.ClearEmptyIsFlush | file.go:401-405 | Clear("") removes the whole root, as Flush does |
| FileProps.ClearKeyWithUnderscore | file.go:401-406 | Clear of a key with "_" removes that key's file only |
| FileProps.FlushRemovesEveryKey | file.go:141-143 | after Flush no key has a file |
| FileProps.HMSetStores | file.go:210-238 | HMSet rejects an empty key, nil data, a pointer to a struct and a non-struct, changing nothing; a struct is stored as its flattened map with TTL 0 |
| FileProps.MapReadsBack | file.go:359-375 | HGetAll of a stored map gives the ToStr text of its JSON decoding, and panics on the type assertion when the map holds NaN or an infinity, which json.Marshal refuses |
| FileProps.HMSetThenHGetAll | file.go:210-238 | HGetAll after HMSet gives the ToStr text of every flattened field after JSON, field values in range, and panics when a float field holds NaN or an infinity |
| FileProps.NaNFieldHGetAllPanics | file.go:359-375 | after HMSet of a record whose float field is NaN, which reports no error, HGetAll panics |
| FileProps.HMSetThenHMScan | file.go:210-262 | a record of restorable fields stored by HMSet and read back by HGetAll and HMScan gives the record back |
| FileProps.HashReadsBack | file.go:359-375 | a hash written back by HSet or HDel comes back from HGetAll with its invalid UTF-8 replaced and colliding keys merged, and unchanged when it is valid UTF-8 |
| FileProps.HSetMissing | file.go:316-319 | HSet of a missing key is (false, nil) and writes nothing |
| FileProps.HSetMerges | file.go:316-334 | HSet of a map writes the ToStr texts of its entries over the hash, and a later HGetAll returns the merged hash as JSON gives it back, unchanged when it is valid UTF-8 |
| FileProps.HSetNonMap | file.go:322-328 | HSet of data that is not a map fails without a write; a map of another type panics |
| FileProps.HSetOnExpired | file.go:316-334 | for an expired key, HSet of entries panics on the nil hash, and nil data stores a null hash |
| FileProps.HDelRemovesOnlyField | file.go:342-352 | HDel stores the hash without the one entry, a later HGetAll gives that hash as JSON gives it back, and exactly the hash without the entry when it is valid UTF-8 |
| FileProps.HMGetAgreesWithHGet | file.go:270-308 | HMGet returns a requested field exactly when HGet finds it, with the same text |
| FileProps.SweepDisabled | file.go:149-151 | a GC run with interval below one removes nothing and does not reschedule |
| FileProps.SweepClean | file.go:153-179 | over decodable files visited once, a sweep removes exactly the expired items |
| FileProps.SweepStopsAtCorrupt | file.go:167-169 | an undecodable file ends the sweep, and later files keep their expired items |
| FileProps.SweepKeepsLive | file.go:171-176 | no sweep removes a live item |
| FileStore.Encoded | file.go:57-59 | Set stores as JSON exactly the values isNotNumber accepts, and those unchanged |
| FileStore.Bump | file.go:106-133 | a successful counter step gives an integer in its width's range |
| FileStore.GetSpec | file.go:82-98 | an Ok result of Get is a well-formed value and never a string map |
| FileStore.HGetAllSpec | file.go:359-375 | an Ok result of HGetAll is a map from string to string, possibly nil |
| FileStore.JsonHash | file.go:359-375 | a hash through JSON stays a hash (nil stays nil) whose keys are the coerced keys |
| FileStore.JsonHashValid | file.go:359-375 | a hash whose keys and texts are valid UTF-8 comes through JSON unchanged |
| FileStore.CollectValues | file.go:217-232 | the HMSet loop builds the flattened map of the struct |
| FileStore.TextsOf | file.go:369-372 | the HGetAll loop builds the ToStr text of every entry |
| FileStore.Requested | file.go:278-284 | the HMGet loop keeps exactly the entries whose keys are requested |
| FileStore.Find | file.go:300-306 | the HGet loop finds the entry whose key is the field, if any |
| FileStore.MergeTexts | file.go:321-326 | the HSet loop writes every new entry's ToStr text into the hash, and panics on its first write into a nil hash |
| FileStore.FileCache.Set | file.go:55-67 | the key's file now holds the encoded value, now and the TTL |
| FileStore.FileCache.Read | file.go:69-79 | the stored item, or the missing-file or undecodable error |
| FileStore.FileCache.Get | file.go:82-98 | the result and the new files are those of GetSpec |
| FileStore.FileCache.Del | file.go:101-103 | os.Remove of the key's file |
| FileStore.FileCache.Incr | file.go:106-118 | the counter step of CounterSpec upwards |
| FileStore.FileCache.Decr | file.go:121-133 | the counter step of CounterSpec downwards |
| FileStore.FileCache.Exists | file.go:136-138 | true exactly when the key's file exists |
| FileStore.FileCache.Flush | file.go:141-143 | os.RemoveAll of the root |
| FileStore.FileCache.Sweep | file.go:145-182 | one GC run over the walk order, as SweepSpec states |
| FileStore.FileCache.StartAndGC | file.go:185-202 | sets the root to the working directory joined with the configured path, made absolute, and sets the interval |
| FileStore.FileCache.HMSet | file.go:210-239 | the result and the new files are those of HMSetSpec |
| FileStore.FileCache.HGetAll | file.go:359-375 | the result and the new files are those of HGetAllSpec |
| FileStore.FileCache.HMGet | file.go:270-287 | the result and the new files are those of HMGetSpec |
| FileStore.FileCache.HGet | file.go:295-308 | the result and the new files are those of HGetSpec |
| FileStore.FileCache.HSet | file.go:316-334 | the result and the new files are those of HSetSpec |
| FileStore.FileCache.HDel | file.go:342-352 | the result and the new files are those of HDelSpec |
| FileStore.FileCache.Expire | file.go:383-394 | the result and the new files are those of ExpireSpec |
| FileStore.FileCache.Clear | file.go:401-406 | the result and the new files are those of ClearSpec |
| Options.Config | cache.go:107-112 | the configuration is empty, because cfg is never assigned |
| Options.ConfigDefaults | cache.go:52-72 | every key of the configuration reads as empty, so MustString and MustInt return their defaults |
| Options.PrepareOptions | cache.go:54-75 | the first options (or the zero value), with the section defaulting to "cache" and an empty adapter, zero interval or empty adapter config becoming "memory", 60 and "cache"; set fields are never overridden |
| Cache.Registry.constructor | badger.go:312-313 | after the init functions of badger.go, file.go (file.go:422-424) and redis.go (redis.go:366-368) the registry holds "badger", "file" and "redis", the file adapter being a new FileCache |
| Cache.Registry.Register | cache.go:97-105 | a nil adapter or a name registered before panics and leaves the registry unchanged; otherwise exactly name→adapter is added |
| Cache.Registry.NewCacher | cache.go:79-85 | an unknown name is an error and starts nothing; a known adapter is returned with its StartAndGC's error, the file adapter getting its root and interval |
| Cache.Registry.New | cache.go:89-92 | the adapter named by the prepared options is looked up and started with them |
| Cache.First | cache.go:54-58 | the options used are the first given, or the zero value |
| Cache.Selected | cache.go:64-66 | the adapter looked up is the one named, and never the empty name |
| Cache.DefaultIsMemory | cache.go:64-66 | without an adapter name New looks up "memory", which none of the three registered adapters is |
| RedisInfo.SplitInfo | redis.go:349-359 | the map from each line's key to its value, for the lines split at "\r\n" |
| RedisInfo.InfoStep | redis.go:352-356 | a line without ":" is ignored; a line with one sets the text before the first ":" to the rest, overwriting an earlier value |
| RedisInfo.InfoKeys | redis.go:353-355 | no key holds ":", and a key is present exactly when some line has it |
| RedisInfo.InfoValue | redis.go:354-355 | a key given by one line maps to that line's value |
| RedisInfo.MemoryLineIsKey | redis.go:362-364 | isMemoryLine holds exactly for a line with the key used_memory and a non-empty value |
| RedisInfo.ParseMemoryInfo | redis.go:339-346 | as written: the first map value, in range order, that is itself a memory line, without its prefix, else "0" |
| RedisInfo.AsWrittenIgnoresReply | redis.go:339-346 | as written, a reply whose values hold no ":" gives "0" |
| RedisInfo.AsWrittenStandardReply | redis.go:339-346 | as written, the reply used_memory:v gives "0" |
| RedisInfo.AsWrittenReportsValueLine | redis.go:339-346 | as written, the line k:used_memory:v gives v |
| RedisInfo.ParseMemoryInfoFixed | redis.go:339-346 | corrected: the value of the first memory line of the reply, else "0" |
| RedisInfo.FixedReportsUsedMemory | redis.go:339-359 | corrected: the result is splitInfo's used_memory value when the reply gives that key once and the value is not empty, else "0" |
| RedisInfo.FixedStandardReply | redis.go:339-346 | corrected: the reply used_memory:v gives v |

## Left out

- Filesystem I/O errors: writes, `os.MkdirAll` and `os.Remove` are taken to succeed. `Set` therefore never fails, and `HMSet` never reports "add failed".
- The bytes of gob are not modelled. A file holds either a stored item or an undecodable marker. A JSON payload is held as the value it encodes, and `Values.JsonDecode` gives what json.Unmarshal returns for it.
- Values.JsonDecode: models the number, []byte (nil or not), nil-map and map cases, json.Marshal's refusal of NaN and infinities, the U+FFFD replacement of invalid UTF-8 and key collisions. JSON's escaping is not modelled, because it is undone on decoding.
- md5 and hex encoding are a parameter (`Digest`).
- Concurrency is left out: the mutex, the GC goroutine, and the rescheduling by `time.AfterFunc`. `FileCache.Sweep` is one run of the walk, and its result says whether the next run would be scheduled.
- `time.Now` is the parameter `now`, the working directory is `cwd`, and the walk order and map iteration order are parameters.
- Floats are kept as the shortest 'f' text `ToStr` prints without arguments.
  - `GoText.FormatG` rebuilds `%v`'s 'g' text from that text.
  - `ToStr`'s precision and bit-size arguments for floats are not modelled.
  - Parsing floats is not modelled. scanValue has no float branch.
- Values.DecodeScalar: treats a JSON-decoded integer as exact. A float64 holds integers exactly only up to 2^53, so for larger integers the text Get or HGetAll returns is not modelled. This is why `Codec.Restorable` requires the magnitude to be at most 2^53.
- Values.WellFormed: the model holds maps only one level deep, and only maps whose keys are strings. So fmt's rendering of nested maps, slices and structs as cache values is not modelled.
- ".." segments are not resolved in paths. Bucket names are taken as written.
- `filepath.IsAbs` is read as "starts with /". `FileStore.RootFor` puts "/" before a relative root without cleaning it, where `filepath.Join` also cleans it. The text differs only for a relative working directory, which `os.Getwd` does not return; the paths built from it are split into segments, which drops empty and "." ones.
- How a pointer field and a time.Time field are printed, and how a time is parsed, are parameters or kept as text. `stringx.GetGromTag` is a field of `Codec.Field` (`gormColumn`).
- `FileCache.Size`, `EncodeGob`/`DecodeGob`, `IsExist`, `badger.go`, the rest of `redis.go` and `example/main.go` are not part of this model.
- The redis and badger adapters are registered by name only (`Cache.Adapter`). Their operations are not part of this model, and their `StartAndGC` result is the parameter `otherStart`.
- Codec.Field: has no exported flag. A tagged unexported field makes `value.Interface()` or `SetInt` / `SetString` panic, and this is not modelled. Every field is taken to be exported.
- Codec.FieldKind: has no slice kind other than []byte and no map or interface kind. In setValue, `value.Bytes()` panics on any other slice, and a map or interface field is stored through `value.Interface()`; neither is modelled.
- Codec.WellTyped: a []byte field holds `Bytes`, a nil one and an empty one alike, since setValue drops both.
- Codec.WellTyped: demands that an embedded field be a struct. For an embedded pointer or non-struct type, `value.NumField()` panics in setValue or scanValue, and this is not modelled.

## Findings

| source | as written | input that shows it | evidently intended | confidence | as-written member | corrected member |
|---|---|---|---|---|---|---|
| redis.go:339-346 | ranges over the values of the splitInfo map and tests each value with isMemoryLine | the reply "used_memory:1024\r\n" gives "0" | report the used_memory value of the reply | not executed | RedisInfo.AsWrittenStandardReply | RedisInfo.FixedReportsUsedMemory |
| file.go:383-394 | passes the Duration's count of nanoseconds (int64(expire)) as the TTL in seconds | Expire(k, time.Second) leaves the item alive two seconds later | the TTL is the Duration in whole seconds | not executed | FileProps.ExpireOneSecondOutlivesIt | FileProps.ExpireSecondsExpiresOnTime |
