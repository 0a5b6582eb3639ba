/** What the file adapter's operations guarantee, stated over the specification functions
    of FileStore: where a key's file lies, what Get returns after Set, how counters, Expire,
    Clear and the hash operations change the files, and what one GC sweep removes. */
module FileProps {
  import opened Wrappers
  import opened GoText
  import opened Values
  import opened Errors
  import opened Codec
  import opened FileStore

  // ------------------------------------------------------------------ expiry

  /** An item lives for `expire` seconds from its creation; a TTL of zero (or less) never
      runs out. */
  lemma ExpiryWindow(item: Item, now: int)
    ensures item.expire <= 0 ==> !item.HasExpired(now)
    ensures item.expire > 0 ==> (item.HasExpired(now) <==> now >= item.created + item.expire)
  {
  }

  // -------------------------------------------------------------------- paths

  /** The bucket of a key: the text before its first "_". */
  function Bucket(key: string): string
  {
    Split(key, "_")[0]
  }

  /** A bucket holds no "_", is a prefix of the key, and exists exactly when the key has "_"
      (which is also when strings.Contains finds it). */
  lemma BucketOfKey(key: string)
    ensures '_' !in Bucket(key)
    ensures |Bucket(key)| <= |key| && key[..|Bucket(key)|] == Bucket(key)
    ensures '_' in key ==> key[|Bucket(key)|] == '_'
    ensures BucketPart(key) == (if '_' in key then "/" + Bucket(key) else "")
    ensures Contains(key, "_") <==> '_' in key
  {
    SplitHead(key, '_');
    ContainsChar(key, '_');
  }

  /** Appending one step to a path. */
  lemma AppendStep(a: string, s: string)
    requires s != "" && s != "." && '/' !in s
    ensures Segments(a + "/" + s) == Segments(a) + [s]
  {
    ContainsChar(s, '/');
    SegmentsOfStep(s);
    SegmentsJoin(a, s);
  }

  /** The three steps a digest h contributes: h[0], h[1] and h. */
  lemma DigestSteps(a: string, h: string)
    requires IsHexDigest(h)
    ensures Segments(a + "/" + [h[0]] + "/" + [h[1]] + "/" + h) == Segments(a) + [[h[0]], [h[1]], h]
  {
    assert h[0] != '/' && h[1] != '/' && h[0] != '.' && h[1] != '.';
    assert '/' !in h by {
      forall i | 0 <= i < |h| ensures h[i] != '/' {
        assert IsHexDigit(h[i]);
      }
    }
    assert h != "." by { assert |h| == 32; }
    var b := a + "/" + [h[0]];
    var c := b + "/" + [h[1]];
    AppendStep(a, [h[0]]);
    AppendStep(b, [h[1]]);
    AppendStep(c, h);
  }

  /** The digest's three steps follow the root and the bucket. */
  lemma PathDigest(root: string, md5: Digest, key: string)
    ensures var h := md5(key);
      PathFor(root, md5, key) == Segments(root + BucketPart(key)) + [[h[0]], [h[1]], h]
  {
    var h := md5(key);
    var a := root + BucketPart(key);
    assert PathFor(root, md5, key) == Segments(a + "/" + [h[0]] + "/" + [h[1]] + "/" + h);
    DigestSteps(a, h);
  }

  /** The bucket, when the key has one, is one more piece of the path after the root. */
  lemma BucketSteps(root: string, key: string)
    ensures Segments(root + BucketPart(key)) ==
      Segments(root) + (if '_' in key then Segments(Bucket(key)) else [])
  {
    BucketOfKey(key);
    if '_' in key {
      SegmentsJoin(root, Bucket(key));
      assert root + BucketPart(key) == root + "/" + Bucket(key);
    } else {
      assert root + BucketPart(key) == root;
    }
  }

  /** filepath yields root[/bucket]/h[0]/h[1]/h, cleaned, for the digest h of the key. */
  lemma PathShape(root: string, md5: Digest, key: string)
    ensures var h := md5(key);
      PathFor(root, md5, key) ==
        Segments(root) + (if '_' in key then Segments(Bucket(key)) else []) + [[h[0]], [h[1]], h]
  {
    PathDigest(root, md5, key);
    BucketSteps(root, key);
  }

  /** Keys with different digests never share a file. */
  lemma PathDistinguishesDigests(root: string, md5: Digest, k1: string, k2: string)
    requires md5(k1) != md5(k2)
    ensures PathFor(root, md5, k1) != PathFor(root, md5, k2)
  {
    PathShape(root, md5, k1);
    PathShape(root, md5, k2);
    var p1 := PathFor(root, md5, k1);
    var p2 := PathFor(root, md5, k2);
    assert p1[|p1| - 1] == md5(k1);
    assert p2[|p2| - 1] == md5(k2);
  }

  /** A path lies under each of its prefixes. */
  lemma UnderPrefix(dir: Path, b: Path, d: Path)
    ensures Under(dir + b + d, dir)
  {
    assert (dir + b + d)[..|dir|] == dir;
  }

  /** Every key's file lies under the root. */
  lemma PathUnderRoot(root: string, md5: Digest, key: string)
    ensures Under(PathFor(root, md5, key), Segments(root))
  {
    var h := md5(key);
    PathDigest(root, md5, key);
    BucketSteps(root, key);
    UnderPrefix(Segments(root), if '_' in key then Segments(Bucket(key)) else [], [[h[0]], [h[1]], h]);
  }

  /** The root StartAndGC picks is the working directory followed by the configured path,
      even when that path is absolute. */
  lemma RootUnderWorkingDirectory(cwd: string, config: string)
    ensures Segments(RootFor(cwd, config)) == Segments(cwd) + Segments(config)
  {
    var r := cwd + "/" + config;
    SegmentsJoin(cwd, config);
    if !HasPrefix(r, "/") {
      SegmentsJoin("", r);
      assert "" + "/" + r == "/" + r;
      assert Segments("") == [];
    }
  }

  // ------------------------------------------------------------ Set and Get

  /** Set writes the key's file and no other. */
  lemma SetOnlyItsFile(disk: Disk, p: Path, v: Value, now: int, expire: int, q: Path)
    requires WellFormed(v)
    ensures var d := SetSpec(disk, p, v, now, expire);
      && d.Keys == disk.Keys + {p}
      && d[p] == Stored(Item(Encoded(v), now, expire))
      && (q != p && q in disk ==> d[q] == disk[q])
  {
  }

  /** Get of what Set stored, before it expires: a scalar comes back as its %v text, which
      for a float is the shortest 'g' form, any other value as its JSON decoding, and
      nothing changes. A map json.Marshal refuses comes back as a nil []byte. */
  lemma GetAfterSet(disk: Disk, p: Path, v: Value, now: int, expire: int, later: int)
    requires WellFormed(v)
    requires expire <= 0 || later < now + expire
    ensures var d := SetSpec(disk, p, v, now, expire);
      GetSpec(d, p, later) == After(Ok(if IsNotNumber(v) then JsonDecode(v) else Str(Sprint(v))), d)
    ensures !Marshals(v) ==> GetSpec(SetSpec(disk, p, v, now, expire), p, later).res == Ok(NilBytes)
  {
  }

  /** Set(k, 42, 0) then Get gives "42". */
  lemma SetFortyTwoGetsText(disk: Disk, p: Path, now: int, later: int)
    ensures GetSpec(SetSpec(disk, p, Num(Int, 42), now, 0), p, later).res == Ok(Str("42"))
  {
    GetAfterSet(disk, p, Num(Int, 42), now, 0, later);
    assert FormatNat(4, 10) == "4";
    assert FormatNat(42, 10) == FormatNat(4, 10) + [DigitChar(2)] == "42";
    assert ToStr(Num(Int, 42), []).value == FormatInt(42, 10) == "42";
  }

  /** The text Get gives for a stored integer reads back as the same number. */
  lemma GetIntegerReadsBack(disk: Disk, p: Path, k: IntKind, n: int, now: int, later: int)
    requires k.Lo() <= n <= k.Hi()
    ensures var g := GetSpec(SetSpec(disk, p, Num(k, n), now, 0), p, later);
      && g.res.Ok? && g.res.value.Str?
      && (k.Signed() ==> ParseInt(g.res.value.s) == Parsed(n, NoError))
      && (!k.Signed() ==> ParseUint(g.res.value.s) == Parsed(n, NoError))
  {
    GetAfterSet(disk, p, Num(k, n), now, 0, later);
    ToStrDecimal(Num(k, n));
  }

  /** Get of an expired item removes its file and returns nil without an error. */
  lemma GetExpired(disk: Disk, p: Path, now: int)
    requires p in disk && disk[p].Stored? && disk[p].item.HasExpired(now)
    ensures GetSpec(disk, p, now) == After(Ok(Nil), disk - {p})
  {
  }

  /** Get fails, changing nothing, when the file is missing or cannot be decoded. */
  lemma GetFailures(disk: Disk, p: Path, now: int)
    ensures p !in disk ==> GetSpec(disk, p, now) == After(Fail(NoSuchFile), disk)
    ensures p in disk && disk[p].Corrupt? ==> GetSpec(disk, p, now) == After(Fail(Undecodable), disk)
  {
  }

  // ---------------------------------------------------------------- counters

  /** Incr and Decr keep the TTL and restart the clock, without looking at expiry; on an
      error nothing changes. */
  lemma CounterKeepsTTL(disk: Disk, p: Path, now: int, up: bool)
    ensures var c := CounterSpec(disk, p, now, up);
      && (c.res.Some? ==> c.disk == disk)
      && (c.res.None? ==>
            && p in disk && disk[p].Stored?
            && c.disk == disk[p := Stored(Item(c.disk[p].item.val, now, disk[p].item.expire))]
            && c.disk[p].item.val.Scalar?
            && c.disk[p].item.val.v
               == (if up then Incr(disk[p].item.val.v) else Decr(disk[p].item.val.v)).val)
  {
    var c := CounterSpec(disk, p, now, up);
    if c.res.None? {
      var item := disk[p].item;
      var b := Bump(item.val, up);
      assert Encoded(b.val) == Scalar(b.val);
    }
  }

  /** A counter stored by Set steps like the integer it holds: Decr after Incr gives the
      stored number back (for unsigned counters below the top of their range). */
  lemma CounterRoundTrip(disk: Disk, p: Path, k: IntKind, n: int, t0: int, t1: int, t2: int, expire: int)
    requires CounterKind(k) && k.Lo() <= n <= k.Hi()
    requires !k.Signed() ==> n < k.Hi()
    ensures var d0 := SetSpec(disk, p, Num(k, n), t0, expire);
      var d1 := CounterSpec(d0, p, t1, true);
      var d2 := CounterSpec(d1.disk, p, t2, false);
      d1.res == None && d2.res == None && d2.disk == SetSpec(disk, p, Num(k, n), t2, expire)
  {
    var v := Num(k, n);
    DecrIncr(v);
    var d0 := SetSpec(disk, p, v, t0, expire);
    var d1 := CounterSpec(d0, p, t1, true);
    assert d1.disk == SetSpec(d0, p, Incr(v).val, t1, expire);
    var d2 := CounterSpec(d1.disk, p, t2, false);
    assert d2.disk == SetSpec(d1.disk, p, Decr(Incr(v).val).val, t2, expire);
  }

  /** A JSON-encoded value is not a counter. */
  lemma CounterOnJson(disk: Disk, p: Path, now: int, up: bool)
    requires p in disk && disk[p].Stored? && disk[p].item.val.Json?
    ensures CounterSpec(disk, p, now, up) == After(Some(NotIntType), disk)
  {
  }

  // ------------------------------------------------------------------ Expire

  /** Expire of a missing key is false and changes nothing. */
  lemma ExpireMissing(disk: Disk, p: Path, d: int, now: int)
    requires p !in disk
    ensures ExpireSpec(disk, p, d, now) == After(false, disk)
  {
  }

  /** Expire stores the %v text Get returned: a live counter becomes a string, so a later
      Incr fails; the TTL is the Duration's nanosecond count. */
  lemma ExpireTurnsCounterIntoString(disk: Disk, p: Path, k: IntKind, n: int, t0: int, d: int, now: int, later: int)
    requires CounterKind(k) && k.Lo() <= n <= k.Hi()
    ensures var d0 := SetSpec(disk, p, Num(k, n), t0, 0);
      var e := ExpireSpec(d0, p, d, now);
      && e.res
      && e.disk == SetSpec(disk, p, Str(FormatInt(n, 10)), now, d)
      && CounterSpec(e.disk, p, later, true).res == Some(NotIntType)
  {
    var d0 := SetSpec(disk, p, Num(k, n), t0, 0);
    GetAfterSet(disk, p, Num(k, n), t0, 0, now);
    assert d0[p := Stored(Item(Encoded(Str(FormatInt(n, 10))), now, d))]
      == disk[p := Stored(Item(Encoded(Str(FormatInt(n, 10))), now, d))];
  }

  /** Expire as written: one second, passed as time.Second (10^9 nanoseconds), makes the
      item outlive it: two seconds later it has not expired. */
  lemma ExpireOneSecondOutlivesIt(disk: Disk, p: Path, now: int)
    requires p in disk && disk[p].Stored? && !disk[p].item.HasExpired(now)
    ensures var e := ExpireSpec(disk, p, 1_000_000_000, now);
      e.res && p in e.disk && e.disk[p].Stored?
      && e.disk[p].item.expire == 1_000_000_000
      && !e.disk[p].item.HasExpired(now + 2)
  {
  }

  /** Expire as intended: with the Duration taken in seconds the item expires exactly when
      that many whole seconds have passed. */
  lemma ExpireSecondsExpiresOnTime(disk: Disk, p: Path, d: int, now: int, later: int)
    requires p in disk && disk[p].Stored? && !disk[p].item.HasExpired(now)
    requires d >= 1_000_000_000
    ensures var e := ExpireSecondsSpec(disk, p, d, now);
      e.res && p in e.disk && e.disk[p].Stored?
      && (e.disk[p].item.HasExpired(later) <==> later - now >= d / 1_000_000_000)
  {
  }

  // ------------------------------------------------------------------- Clear

  /** RemoveAll of a path removes every file under it. */
  lemma RemoveAllUnder(disk: Disk, path: string, q: Path)
    requires path != "" && !EndsWithDot(path) && Under(q, Segments(path))
    ensures q !in RemoveAllSpec(disk, path).disk
  {
  }

  /** Clear of a name without "_" removes the file of every key in that bucket, and keeps
      every file outside root/name. */
  lemma ClearRemovesBucket(disk: Disk, root: string, md5: Digest, name: string, key: string, q: Path)
    requires '_' !in name && !EndsWithDot(root + "/" + name)
    requires '_' in key && Bucket(key) == name
    ensures var c := ClearSpec(disk, root, md5, name);
      && c.res == None
      && PathFor(root, md5, key) !in c.disk
      && (q in disk && !Under(q, Segments(root) + Segments(name)) ==> q in c.disk && c.disk[q] == disk[q])
  {
    ContainsChar(name, '_');
    SegmentsJoin(root, name);
    PathShape(root, md5, key);
  }

  /** ... and, when the name is one hex digit, also the file of every key without a bucket
      whose digest starts with that digit. */
  lemma ClearHexDigitRemovesUnbucketed(disk: Disk, root: string, md5: Digest, c: char, key: string)
    requires IsHexDigit(c)
    requires '_' !in key && md5(key)[0] == c
    ensures PathFor(root, md5, key) !in ClearSpec(disk, root, md5, [c]).disk
  {
    var name := [c];
    var dir := root + "/" + name;
    ContainsChar(name, '_');
    assert ClearSpec(disk, root, md5, name) == RemoveAllSpec(disk, dir);
    assert dir != "" && !EndsWithDot(dir);
    var h := md5(key);
    UnbucketedUnderDigit(root, md5, key);
    UnderStep(root, c, [[h[1]], h]);
    RemoveAllUnder(disk, dir, PathFor(root, md5, key));
  }

  /** A path that continues root with the step [d] lies under root/d. */
  lemma UnderStep(root: string, d: char, rest: Path)
    requires d != '/' && d != '.'
    ensures Under(Segments(root) + [[d]] + rest, Segments(root + "/" + [d]))
  {
    AppendStep(root, [d]);
    UnderPrefix(Segments(root) + [[d]], rest, []);
    assert Segments(root) + [[d]] + rest + [] == Segments(root) + [[d]] + rest;
  }

  /** Without a bucket, a key's file is the root followed by its digest's first digit and
      then the rest of the digest's steps. */
  lemma UnbucketedUnderDigit(root: string, md5: Digest, key: string)
    requires '_' !in key
    ensures var h := md5(key);
      PathFor(root, md5, key) == Segments(root) + [[h[0]]] + [[h[1]], h]
  {
    var h := md5(key);
    PathDigest(root, md5, key);
    NoBucket(root, key);
    var r := Segments(root);
    assert r + [[h[0]], [h[1]], h] == r + [[h[0]]] + [[h[1]], h];
  }

  /** A key without "_" adds nothing to the root. */
  lemma NoBucket(root: string, key: string)
    requires '_' !in key
    ensures root + BucketPart(key) == root
  {
    BucketOfKey(key);
    assert root + "" == root;
  }

  /** Clear("") removes the whole root, as Flush does. */
  lemma ClearEmptyIsFlush(disk: Disk, root: string, md5: Digest)
    requires root != "" && !EndsWithDot(root)
    ensures ClearSpec(disk, root, md5, "") == RemoveAllSpec(disk, root)
  {
    ClearWithoutUnderscore(disk, root, md5, "");
    TrailingSlash(root);
    assert root + "/" + "" == root + "/";
  }

  /** Clear of a name without "_" is RemoveAll of root/name. */
  lemma ClearWithoutUnderscore(disk: Disk, root: string, md5: Digest, name: string)
    requires '_' !in name
    ensures ClearSpec(disk, root, md5, name) == RemoveAllSpec(disk, root + "/" + name)
  {
    ContainsChar(name, '_');
  }

  /** A trailing "/" does not change a path. */
  lemma TrailingSlash(root: string)
    requires root != "" && !EndsWithDot(root)
    ensures Segments(root + "/") == Segments(root) && !EndsWithDot(root + "/")
  {
    SegmentsJoin(root, "");
    assert Split("", "/") == [""];
    assert Segments("") == [];
    assert root + "/" + "" == root + "/";
  }

  /** Clear of a key with "_" removes that key's file only. */
  lemma ClearKeyWithUnderscore(disk: Disk, root: string, md5: Digest, key: string)
    requires '_' in key
    ensures ClearSpec(disk, root, md5, key).disk == disk - {PathFor(root, md5, key)}
  {
    ContainsChar(key, '_');
    assert Contains(key, "_");
    var p := PathFor(root, md5, key);
    assert ClearSpec(disk, root, md5, key) == RemoveSpec(disk, p);
  }

  /** Flush leaves no key's file. */
  lemma FlushRemovesEveryKey(disk: Disk, root: string, md5: Digest, key: string)
    requires root != "" && !EndsWithDot(root)
    ensures PathFor(root, md5, key) !in RemoveAllSpec(disk, root).disk
  {
    PathUnderRoot(root, md5, key);
  }

  // ------------------------------------------------------------------ hashes

  /** A hash stored again by HSet or HDel (JSON, TTL 0) reads back through HGetAll as
      JSON leaves it, which is the hash itself when it is valid UTF-8: a nil hash is
      written as null, which Get gives back as nil. */
  lemma HashReadsBack(disk: Disk, p: Path, h: Value, now: int, later: int)
    requires IsHash(h)
    ensures var d := SetSpec(disk, p, h, now, 0);
      HGetAllSpec(d, p, later) == After(Ok(JsonHash(h)), d)
    ensures ValidHash(h) ==> JsonHash(h) == h
  {
    var d := SetSpec(disk, p, h, now, 0);
    GetAfterSet(disk, p, h, now, 0, later);
    if h.StrMap? {
      HashTexts(h);
    }
    if ValidHash(h) {
      JsonHashValid(h);
    }
  }

  /** The texts HGetAll makes of a decoded string map are the hash as JSON leaves it. */
  lemma HashTexts(h: Value)
    requires h.StrMap?
    ensures JsonDecode(h).Map? && Texts(JsonDecode(h).entries) == JsonHash(h).fields
  {
  }

  /** HMSet rejects an empty key and a nil, pointer or non-struct argument, changing
      nothing; a struct is stored as the flattened map, with TTL 0. */
  lemma HMSetStores(disk: Disk, p: Path, key: string, data: Arg, now: int)
    requires data.Struct? ==> forall i :: 0 <= i < |data.fields| ==> WellTyped(data.fields[i])
    ensures var r := HMSetSpec(disk, p, key, data, now);
      && (key == "" || data.NilArg? ==> r == After(Some(ParameterEmpty), disk))
      && (key != "" && data.StructPtr? ==> r == After(Some(ParsingFailed), disk))
      && (key != "" && data.NonStruct? ==> r == After(Some(Panic(NotAStruct)), disk))
      && (key != "" && data.Struct? ==>
            r.res == None && r.disk == disk[p := Stored(Item(Json(Map(Flatten(data.fields))), now, 0))])
  {
    if key != "" && data.Struct? {
      FlattenLeaves(data.fields);
    }
  }

  /** A stored map of scalars reads back through HGetAll as the ToStr texts of its entries as
      JSON decodes them. A map holding NaN or an infinity is stored as the nil bytes
      json.Marshal returns with its error; Get gives back a nil []byte, and HGetAll's type
      assertion to a map panics. */
  lemma MapReadsBack(disk: Disk, p: Path, f: map<string, Value>, now: int, later: int)
    requires WellFormed(Map(f))
    ensures var d := SetSpec(disk, p, Map(f), now, 0);
      HGetAllSpec(d, p, later) ==
        After(if Marshals(Map(f)) then Ok(StrMap(HashText(f))) else Fail(Panic(NotAMap)), d)
  {
    var d := SetSpec(disk, p, Map(f), now, 0);
    var v := JsonDecode(Map(f));
    assert d[p] == Stored(Item(Json(Map(f)), now, 0));
    assert GetSpec(d, p, later) == After(Ok(v), d);
    if Marshals(Map(f)) {
      assert Texts(v.entries) == HashText(f);
    }
  }

  /** A map holding a float64 NaN: Get gives back the nil []byte Set stored for it, and
      HGetAll panics. */
  lemma NaNInMapNotRestored(disk: Disk, p: Path, now: int, later: int)
    ensures var d := SetSpec(disk, p, Map(map["x" := Float(Float64, "NaN")]), now, 0);
      && GetSpec(d, p, later) == After(Ok(NilBytes), d)
      && HGetAllSpec(d, p, later) == After(Fail(Panic(NotAMap)), d)
  {
    var m := map["x" := Float(Float64, "NaN")];
    assert !Marshals(Map(m)) by {
      assert "x" in m && NonFinite(m["x"]);
    }
    GetAfterSet(disk, p, Map(m), now, 0, later);
    MapReadsBack(disk, p, m, now, later);
  }

  /** A record whose float field holds NaN: HMSet reports no error, and HGetAll panics. */
  lemma NaNFieldHGetAllPanics(disk: Disk, p: Path, now: int, later: int)
    ensures var f := Field("score", "", "", false, FloatField(Float64), Float(Float64, "NaN"), []);
      var r := HMSetSpec(disk, p, "k", Struct([f]), now);
      r.res == None && HGetAllSpec(r.disk, p, later) == After(Fail(Panic(NotAMap)), r.disk)
  {
    var f := Field("score", "", "", false, FloatField(Float64), Float(Float64, "NaN"), []);
    assert Flatten([f]) == Store(Flatten([]), f);
    assert Flatten([f]) == map["score" := f.val];
    HMSetStores(disk, p, "k", Struct([f]), now);
    HMSetThenHGetAll(disk, p, "k", [f], now, later);
    assert !Marshals(Map(Flatten([f]))) by {
      assert "score" in Flatten([f]) && NonFinite(Flatten([f])["score"]);
    }
  }

  /** json.Marshal writes a nil []byte as null, which Get gives back as nil; an empty one it
      writes as "", which Get gives back as the empty string. */
  lemma NilBytesReadBackNil(disk: Disk, p: Path, now: int, later: int)
    ensures GetSpec(SetSpec(disk, p, NilBytes, now, 0), p, later).res == Ok(Nil)
    ensures GetSpec(SetSpec(disk, p, Bytes([]), now, 0), p, later).res == Ok(Str(""))
  {
    GetAfterSet(disk, p, NilBytes, now, 0, later);
    GetAfterSet(disk, p, Bytes([]), now, 0, later);
    assert Coerce(Base64([])) == "";
  }

  /** HGetAll after HMSet gives the ToStr text of every flattened field as JSON decodes it,
      and panics when a float field holds NaN or an infinity. */
  lemma HMSetThenHGetAll(disk: Disk, p: Path, key: string, fields: seq<Field>, now: int, later: int)
    requires key != "" && forall i :: 0 <= i < |fields| ==> WellTyped(fields[i])
    ensures forall k :: k in Flatten(fields) ==> !IsMap(Flatten(fields)[k]) && InRange(Flatten(fields)[k])
    ensures var d := HMSetSpec(disk, p, key, Struct(fields), now).disk;
      HGetAllSpec(d, p, later) ==
        After(if Marshals(Map(Flatten(fields))) then Ok(StrMap(HashText(Flatten(fields))))
              else Fail(Panic(NotAMap)), d)
  {
    FlattenLeaves(fields);
    HMSetStores(disk, p, key, Struct(fields), now);
    MapReadsBack(disk, p, Flatten(fields), now, later);
  }

  /** A record written by HMSet and read back by HGetAll and HMScan into zero values gives
      the record back, when every field is of a kind scanValue restores and the redis tags
      match the cache tags. */
  lemma HMSetThenHMScan(disk: Disk, p: Path, key: string, fields: seq<Field>, now: int, later: int,
                        parseTime: string -> Option<string>)
    requires key != ""
    requires forall j :: 0 <= j < |fields| ==> Restorable(fields[j]) && ScanTag(fields[j]) == SetTag(fields[j])
    requires forall i, j :: 0 <= i < j < |fields| ==> SetTag(fields[i]) != SetTag(fields[j])
    ensures forall i :: 0 <= i < |fields| ==> WellTyped(fields[i])
    ensures var d := HMSetSpec(disk, p, key, Struct(fields), now).disk;
      var a := HGetAllSpec(d, p, later);
      && a.res.Ok? && a.res.value.StrMap?
      && ScanFields(a.res.value.fields, ZeroAll(fields), parseTime) == fields
  {
    assert forall i :: 0 <= i < |fields| ==> WellTyped(fields[i]);
    HMSetThenHGetAll(disk, p, key, fields, now, later);
    RecordRoundTrip(fields, parseTime);
  }

  /** HSet of a missing key is false and changes nothing. */
  lemma HSetMissing(disk: Disk, p: Path, newData: Value, now: int)
    requires WellFormed(newData) && p !in disk
    ensures HSetSpec(disk, p, newData, now) == After(Ok(false), disk)
  {
  }

  /** HSet of a map into a live hash stores the hash with the new entries' ToStr texts
      written over the old ones, and a later HGetAll shows that hash as JSON leaves it,
      which is exactly that hash when its keys and texts are valid UTF-8. */
  lemma HSetMerges(disk: Disk, p: Path, m: map<string, string>, entries: map<string, Value>, now: int, later: int)
    requires WellFormed(Map(entries))
    requires HGetAllSpec(disk, p, now) == After(Ok(StrMap(m)), disk)
    ensures var r := HSetSpec(disk, p, Map(entries), now);
      && r == After(Ok(true), SetSpec(disk, p, StrMap(m + Texts(entries)), now, 0))
      && HGetAllSpec(r.disk, p, later) == After(Ok(JsonHash(StrMap(m + Texts(entries)))), r.disk)
    ensures ValidHash(StrMap(m + Texts(entries))) ==> JsonHash(StrMap(m + Texts(entries))) == StrMap(m + Texts(entries))
  {
    HSetWrites(disk, p, m, entries, now);
    HashReadsBack(disk, p, StrMap(m + Texts(entries)), now, later);
  }

  lemma HSetWrites(disk: Disk, p: Path, m: map<string, string>, entries: map<string, Value>, now: int)
    requires WellFormed(Map(entries))
    requires HGetAllSpec(disk, p, now) == After(Ok(StrMap(m)), disk)
    ensures HSetSpec(disk, p, Map(entries), now) == After(Ok(true), SetSpec(disk, p, StrMap(m + Texts(entries)), now, 0))
  {
    assert p in disk;
    assert Merged(StrMap(m), entries) == StrMap(m + Texts(entries));
  }

  /** HSet of a key whose item has expired: Get removes the file and HGetAll gives a nil
      hash, so writing entries into it panics, while nil data writes back a null hash. */
  lemma HSetOnExpired(disk: Disk, p: Path, newData: Value, now: int)
    requires WellFormed(newData)
    requires p in disk && disk[p].Stored? && disk[p].item.HasExpired(now)
    ensures newData.Map? && newData.entries != map[] ==>
      HSetSpec(disk, p, newData, now) == After(Fail(Panic(NilMapWrite)), disk - {p})
    ensures newData == Nil ==>
      HSetSpec(disk, p, newData, now) == After(Ok(true), SetSpec(disk - {p}, p, NilStrMap, now, 0))
  {
  }

  /** HSet of data that is not a map: a panic for a string map, an error otherwise. */
  lemma HSetNonMap(disk: Disk, p: Path, newData: Value, m: map<string, string>, now: int)
    requires WellFormed(newData) && newData != Nil && !newData.Map?
    requires HGetAllSpec(disk, p, now) == After(Ok(StrMap(m)), disk)
    ensures HSetSpec(disk, p, newData, now) ==
      After(Fail(if IsMap(newData) then Panic(NotAMap) else DataMustBeMap), disk)
  {
    assert p in disk;
  }

  /** HDel removes one entry of a live hash and keeps the rest: a later HGetAll gives the
      rest as JSON leaves it, exactly the rest when the hash is valid UTF-8. */
  lemma HDelRemovesOnlyField(disk: Disk, p: Path, m: map<string, string>, field: string, now: int, later: int)
    requires HGetAllSpec(disk, p, now) == After(Ok(StrMap(m)), disk)
    ensures var r := HDelSpec(disk, p, field, now);
      && r.res == None
      && r.disk == SetSpec(disk, p, StrMap(m - {field}), now, 0)
      && HGetAllSpec(r.disk, p, later) == After(Ok(JsonHash(StrMap(m - {field}))), r.disk)
      && (ValidHash(StrMap(m)) ==> HGetAllSpec(r.disk, p, later).res == Ok(StrMap(m - {field})))
  {
    assert p in disk;
    HashReadsBack(disk, p, StrMap(m - {field}), now, later);
    assert ValidHash(StrMap(m)) ==> ValidHash(StrMap(m - {field}));
  }

  /** HMGet of a field agrees with HGet of it: both fail or neither does, a requested field
      is in HMGet's answer exactly when HGet finds it, with the same text, and the files end
      the same. */
  lemma HMGetAgreesWithHGet(disk: Disk, p: Path, names: seq<string>, field: string, now: int)
    requires field in names
    ensures var a := HMGetSpec(disk, p, names, now);
      var b := HGetSpec(disk, p, field, now);
      && a.disk == b.disk
      && (a.res.Ok? ==> (field in a.res.value <==> b.res.Ok?))
      && (a.res.Ok? && field in a.res.value ==> b.res.value == a.res.value[field])
      && (a.res.Fail? ==> b.res.Fail?)
  {
  }

  // ------------------------------------------------------------------- sweep

  /** A GC run with an interval below one second sweeps nothing and stops the timer. */
  lemma SweepDisabled(disk: Disk, order: seq<Path>, now: int, interval: int)
    requires interval < 1
    ensures SweepSpec(disk, order, now, interval) == After(false, disk)
  {
  }

  /** The files a walk over `seen` leaves: all but those of expired items it has seen. */
  function Survivors(disk: Disk, seen: seq<Path>, now: int): (r: Disk)
    ensures r.Keys <= disk.Keys
  {
    map q | q in disk && !(q in seen && disk[q].Stored? && disk[q].item.HasExpired(now)) :: disk[q]
  }

  /** A walk over files that all decode. */
  predicate Clean(disk: Disk, order: seq<Path>)
  {
    && (forall i :: 0 <= i < |order| ==> order[i] in disk && disk[order[i]].Stored?)
    && (forall i, j :: 0 <= i < j < |order| ==> order[i] != order[j])
  }

  /** A walk over decodable files, each visited once, removes exactly the expired ones. */
  lemma {:induction false} SweepClean(disk: Disk, order: seq<Path>, now: int)
    requires Clean(disk, order)
    ensures SweepFrom(disk, order, now) == Survivors(disk, order, now)
    decreases |order|
  {
    if order == [] {
      assert Survivors(disk, order, now) == disk;
    } else {
      var p := order[0];
      var rest := order[1..];
      var next := if disk[p].item.HasExpired(now) then disk - {p} else disk;
      assert Clean(next, rest) by {
        forall i | 0 <= i < |rest| ensures rest[i] in next && next[rest[i]].Stored? {
          assert rest[i] == order[i + 1] != order[0];
        }
        forall i, j | 0 <= i < j < |rest| ensures rest[i] != rest[j] {
          assert rest[i] == order[i + 1] && rest[j] == order[j + 1];
        }
      }
      SweepClean(next, rest, now);
      assert p !in rest by {
        forall i | 0 <= i < |rest| ensures rest[i] != p {
          assert rest[i] == order[i + 1];
        }
      }
      assert Survivors(next, rest, now) == Survivors(disk, order, now) by {
        forall q ensures q in Survivors(next, rest, now) <==> q in Survivors(disk, order, now) {
          assert q in order <==> q == p || q in rest;
        }
      }
    }
  }

  /** Walking two stretches is walking the first and then the second from where it ended. */
  lemma {:induction false} SweepAppend(disk: Disk, pre: seq<Path>, post: seq<Path>, now: int)
    requires Clean(disk, pre)
    ensures SweepFrom(disk, pre + post, now) == SweepFrom(SweepFrom(disk, pre, now), post, now)
    decreases |pre|
  {
    if pre != [] {
      var p := pre[0];
      var next := if disk[p].item.HasExpired(now) then disk - {p} else disk;
      assert (pre + post)[0] == p && (pre + post)[1..] == pre[1..] + post;
      assert Clean(next, pre[1..]) by {
        forall i | 0 <= i < |pre[1..]| ensures pre[1..][i] in next && next[pre[1..][i]].Stored? {
          assert pre[1..][i] == pre[i + 1] != pre[0];
        }
        forall i, j | 0 <= i < j < |pre[1..]| ensures pre[1..][i] != pre[1..][j] {
          assert pre[1..][i] == pre[i + 1] && pre[1..][j] == pre[j + 1];
        }
      }
      SweepAppend(next, pre[1..], post, now);
    } else {
      assert pre + post == post;
    }
  }

  /** A file that cannot be decoded ends the walk: files after it keep their expired items. */
  lemma SweepStopsAtCorrupt(disk: Disk, pre: seq<Path>, c: Path, post: seq<Path>, now: int)
    requires Clean(disk, pre) && c !in pre
    requires c in disk && disk[c].Corrupt?
    ensures SweepFrom(disk, pre + [c] + post, now) == Survivors(disk, pre, now)
  {
    assert pre + [c] + post == pre + ([c] + post);
    SweepAppend(disk, pre, [c] + post, now);
    SweepClean(disk, pre, now);
    var s := Survivors(disk, pre, now);
    assert c in s && s[c].Corrupt?;
    assert ([c] + post)[0] == c;
  }

  /** No walk removes a live item. */
  lemma {:induction false} SweepKeepsLive(disk: Disk, order: seq<Path>, now: int, q: Path)
    requires q in disk && disk[q].Stored? && !disk[q].item.HasExpired(now)
    ensures q in SweepFrom(disk, order, now) && SweepFrom(disk, order, now)[q] == disk[q]
    decreases |order|
  {
    if order != [] {
      var p := order[0];
      if p in disk && disk[p].Stored? {
        var next := if disk[p].item.HasExpired(now) then disk - {p} else disk;
        SweepKeepsLive(next, order[1..], now, q);
      }
    }
  }
}
