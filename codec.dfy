/** The record codec of utils.go: setValue flattens one struct field into a (tag, value)
    pair, or into the pairs of an embedded struct's fields; the HMSet loop folds those pairs
    into a hash; scanValue writes hash texts back into struct fields. Reflection is replaced
    by an explicit field descriptor. */
module Codec {
  import opened Wrappers
  import opened GoText
  import opened Values
  import opened Errors

  /** The reflect.Kind of a field, with time.Time told apart from other structs. */
  datatype FieldKind =
    | IntField(k: IntKind)
    | FloatField(w: FloatKind)
    | StringField
    | BoolField
    | BytesField      // []byte
    | PtrField
    | TimeField       // time.Time
    | StructField     // any other struct

  /** One struct field: its `cache` and `redis` tags, the column name its `gorm` tag gives,
      whether it is embedded, its kind, its current value and, for a struct, its fields.
      A pointer or a time.Time holds the text fmt prints for it. */
  datatype Field = Field(
    cacheTag: string, redisTag: string, gormColumn: string,
    anonymous: bool, kind: FieldKind, val: Value, embedded: seq<Field>)

  /** The value fits the kind; only structs are embedded or have fields. */
  predicate WellTyped(f: Field)
    decreases f
  {
    && (match f.kind
        case IntField(k) => f.val.Num? && f.val.kind == k && InRange(f.val)
        case FloatField(w) => f.val.Float? && f.val.width == w
        case StringField => f.val.Str?
        case PtrField => f.val.Str?
        case TimeField => f.val.Str?
        case BoolField => f.val.Bool?
        case BytesField => f.val.Bytes?
        case StructField => f.val.Nil?)
    && (f.anonymous ==> f.kind == StructField)
    && (f.kind != StructField ==> f.embedded == [])
    && (forall i :: 0 <= i < |f.embedded| ==> WellTyped(f.embedded[i]))
  }

  /** The hash key setValue uses: the cache tag, else the gorm column. */
  function SetTag(f: Field): string
  {
    if f.cacheTag != "" then f.cacheTag else f.gormColumn
  }

  /** The hash key scanValue uses: the redis tag, else the gorm column. */
  function ScanTag(f: Field): string
  {
    if f.redisTag != "" then f.redisTag else f.gormColumn
  }

  /** One (tag, val) element of setValue's child slice. */
  datatype Entry = Entry(tag: string, val: Value)

  /** The tag and value setValue returns for a field. Every path that does not return
      early returns the outer, still empty, named result `tag`. */
  function Encode(f: Field): Entry
  {
    var tag := SetTag(f);
    if f.anonymous || tag == "" then Entry("", Nil)
    else match f.kind
      case PtrField => if f.val != Str("") then Entry(tag, f.val) else Entry("", Nil)
      case TimeField => Entry(tag, f.val)
      case StructField => Entry("", Nil)
      case BytesField =>
        if f.val.Bytes? && |f.val.data| > 0 then Entry(tag, Str(BytesText(f.val.data)))
        else Entry("", Nil)
      case _ => Entry(tag, f.val)
  }

  /** The child slice setValue returns: the tag and value of each field of an embedded
      struct, one level deep (the children those calls return are dropped). */
  function Children(f: Field): (r: seq<Entry>)
    ensures |r| == (if f.anonymous then |f.embedded| else 0)
    ensures forall i :: 0 <= i < |r| ==> r[i] == Encode(f.embedded[i])
  {
    if f.anonymous then seq(|f.embedded|, i requires 0 <= i < |f.embedded| => Encode(f.embedded[i]))
    else []
  }

  /** setValue. */
  method SetValue(f: Field) returns (tag: string, val: Value, child: seq<Entry>)
    ensures Entry(tag, val) == Encode(f)
    ensures child == Children(f)
    decreases f, 1
  {
    if f.anonymous {
      child := [];
      var i := 0;
      while i < |f.embedded|
        invariant 0 <= i <= |f.embedded|
        invariant child == Children(f)[..i]
      {
        var newTag, newVal, _ := SetValueOf(f, i);
        child := child + [Entry(newTag, newVal)];
        i := i + 1;
      }
      return "", Nil, child;
    }
    tag, val := Encode(f).tag, Encode(f).val;
    child := [];
  }

  /** The recursive call setValue makes on the i-th field of an embedded struct. */
  method SetValueOf(f: Field, i: int) returns (tag: string, val: Value, child: seq<Entry>)
    requires 0 <= i < |f.embedded|
    ensures Entry(tag, val) == Encode(f.embedded[i])
    ensures child == Children(f.embedded[i])
    decreases f, 0
  {
    tag, val, child := SetValue(f.embedded[i]);
  }

  // ------------------------------------------------------------ flattening

  /** The HMSet loop body for one child pair: kept when it has a tag or a value. */
  function StoreChild(values: map<string, Value>, e: Entry): map<string, Value>
  {
    if e.tag != "" || e.val != Nil then values[e.tag := e.val] else values
  }

  function StoreChildren(values: map<string, Value>, cs: seq<Entry>): map<string, Value>
    decreases |cs|
  {
    if cs == [] then values
    else StoreChild(StoreChildren(values, cs[..|cs| - 1]), cs[|cs| - 1])
  }

  /** The HMSet loop body for one field: an embedded struct stores its children, any other
      field its value unless that is nil or the empty string. */
  function Store(values: map<string, Value>, f: Field): map<string, Value>
  {
    if Children(f) != [] then StoreChildren(values, Children(f))
    else
      var e := Encode(f);
      if e.val != Str("") && e.val != Nil then values[e.tag := e.val] else values
  }

  /** The hash HMSet builds from a struct's fields, in field order (later tags win). */
  function Flatten(fields: seq<Field>): map<string, Value>
    decreases |fields|
  {
    if fields == [] then map[]
    else Store(Flatten(fields[..|fields| - 1]), fields[|fields| - 1])
  }

  /** A field whose stored value is kept by the HMSet loop. */
  predicate Kept(f: Field)
  {
    !f.anonymous && Encode(f).val != Str("") && Encode(f).val != Nil
  }

  /** Flattening a struct without embedded fields: a field's tag is a key exactly when
      some field with that tag is kept, and the value is the last such field's. */
  lemma {:induction false} FlattenFlat(fields: seq<Field>, i: int)
    requires forall j :: 0 <= j < |fields| ==> !fields[j].anonymous
    requires 0 <= i < |fields| && Kept(fields[i])
    requires forall j :: i < j < |fields| ==> !(Kept(fields[j]) && SetTag(fields[j]) == SetTag(fields[i]))
    ensures SetTag(fields[i]) in Flatten(fields)
    ensures Flatten(fields)[SetTag(fields[i])] == Encode(fields[i]).val
    decreases |fields|
  {
    var n := |fields| - 1;
    var init := fields[..n];
    assert Flatten(fields) == Store(Flatten(init), fields[n]);
    assert Encode(fields[i]).tag == SetTag(fields[i]);
    if i < n {
      FlattenFlat(init, i);
    }
  }

  /** ... and a tag that no kept field has is not a key. */
  lemma {:induction false} FlattenFlatAbsent(fields: seq<Field>, tag: string)
    requires forall j :: 0 <= j < |fields| ==> !fields[j].anonymous
    requires forall j :: 0 <= j < |fields| ==> !(Kept(fields[j]) && SetTag(fields[j]) == tag)
    ensures tag !in Flatten(fields)
    decreases |fields|
  {
    if fields != [] {
      var n := |fields| - 1;
      var init := fields[..n];
      FlattenFlatAbsent(init, tag);
      assert Flatten(fields) == Store(Flatten(init), fields[n]);
      if Kept(fields[n]) {
        assert Encode(fields[n]).tag == SetTag(fields[n]);
      }
    }
  }

  /** Only one level of embedding is flattened: the fields of a struct embedded in an
      embedded struct contribute nothing. */
  lemma NestedEmbeddingDropped(f: Field, i: int)
    requires f.anonymous && 0 <= i < |f.embedded| && f.embedded[i].anonymous
    ensures Children(f)[i] == Entry("", Nil)
    ensures StoreChild(map[], Children(f)[i]) == map[]
  {
  }

  /** A struct field other than time.Time flattens to nothing. */
  lemma StructFieldDropped(f: Field)
    requires !f.anonymous && f.kind == StructField
    ensures Encode(f) == Entry("", Nil)
    ensures Flatten([f]) == map[]
  {
    assert Flatten([f]) == Store(Flatten([]), f);
  }

  /** An empty string is dropped at the top level but kept inside an embedded struct. */
  lemma EmptyStringKeptOnlyWhenEmbedded(f: Field, g: Field)
    requires !f.anonymous && f.kind == StringField && SetTag(f) != "" && f.val == Str("")
    requires g.anonymous && g.kind == StructField && g.embedded == [f]
    ensures Flatten([f]) == map[]
    ensures Flatten([g]) == map[SetTag(f) := Str("")]
  {
    assert Flatten([f]) == Store(Flatten([]), f);
    assert Flatten([g]) == Store(Flatten([]), g);
    assert Children(g) == [Entry(SetTag(f), Str(""))];
    assert StoreChildren(map[], Children(g)) ==
      StoreChild(StoreChildren(map[], []), Entry(SetTag(f), Str("")));
  }

  // -------------------------------------------------------------- scanning

  /** conv.StringToByte: the bytes of a Go string. */
  function TextBytes(s: string): (r: seq<byte>)
    ensures |r| == |s|
  {
    seq(|s|, k requires 0 <= k < |s| => (s[k] as int) % 256)
  }

  lemma TextBytesOfBytesText(d: seq<byte>)
    ensures TextBytes(BytesText(d)) == d
  {
  }

  /** The integer kinds scanValue parses with ParseInt / ParseUint; int8 and uint8 are not
      among them. */
  predicate ScanSigned(k: IntKind)
  {
    k == Int || k == Int16 || k == Int32 || k == Int64
  }

  predicate ScanUnsigned(k: IntKind)
  {
    k == Uint || k == Uint16 || k == Uint32 || k == Uint64
  }

  /** The text a hash holds for a key, "" when the key is absent. */
  function Lookup(text: map<string, string>, key: string): string
  {
    if key in text then text[key] else ""
  }

  /** scanValue on one field. `parseTime` stands for time.Parse with the layout scanValue
      uses, giving the text of the parsed time. */
  function ScanField(text: map<string, string>, f: Field, parseTime: string -> Option<string>): (r: Field)
    decreases f
  {
    if f.anonymous then f.(embedded := ScanFields(text, f.embedded, parseTime))
    else
      var tag := ScanTag(f);
      var v := Lookup(text, tag);
      if tag == "" || |v| == 0 then f
      else match f.kind
        case IntField(k) =>
          if ScanSigned(k) then f.(val := Num(k, k.Wrap(ParseInt(v).n)))
          else if ScanUnsigned(k) then f.(val := Num(k, k.Wrap(ParseUint(v).n)))
          else f
        case StringField => f.(val := Str(v))
        case BoolField => f.(val := Bool(v == "true"))
        case BytesField => f.(val := Bytes(TextBytes(v)))
        case TimeField =>
          (match parseTime(Split(v, "+")[0])
           case Some(t) => f.(val := Str(t))
           case None => f)
        case FloatField(_) => f
        case PtrField => f
        case StructField => f
  }

  function ScanFields(text: map<string, string>, fs: seq<Field>, parseTime: string -> Option<string>): (r: seq<Field>)
    ensures |r| == |fs|
    decreases fs
  {
    seq(|fs|, i requires 0 <= i < |fs| => ScanField(text, fs[i], parseTime))
  }

  /** scanValue keeps a field well typed, and changes nothing but its value (and, for an
      embedded struct, its fields). */
  lemma {:induction false} ScanKeepsShape(text: map<string, string>, f: Field, parseTime: string -> Option<string>)
    requires WellTyped(f)
    ensures WellTyped(ScanField(text, f, parseTime))
    ensures ScanField(text, f, parseTime).(val := f.val, embedded := f.embedded) == f
    decreases f
  {
    if f.anonymous {
      var es := ScanFields(text, f.embedded, parseTime);
      forall i | 0 <= i < |f.embedded|
        ensures WellTyped(es[i])
      {
        ScanKeepsShape(text, f.embedded[i], parseTime);
      }
    }
  }

  /** A field whose key is absent or empty, or whose kind scanValue does not support,
      is left as it was. */
  lemma ScanLeavesUntouched(text: map<string, string>, f: Field, parseTime: string -> Option<string>)
    requires !f.anonymous
    requires Lookup(text, ScanTag(f)) == ""
      || f.kind.FloatField? || f.kind == PtrField || f.kind == StructField
      || f.kind == IntField(Int8) || f.kind == IntField(Uint8)
    ensures ScanField(text, f, parseTime) == f
  {
  }

  /** What scanValue writes into a field whose key holds a non-empty text `v`: a number
      is parsed in base ten and truncated to the field's type, with text that does not
      parse giving 0 and an out-of-range number the int64 (uint64) bound; a bool is true
      exactly for "true"; a string or byte slice takes the text; a time is parsed up to
      the first '+' and kept when it parses. */
  lemma ScanParsing(text: map<string, string>, f: Field, parseTime: string -> Option<string>)
    requires !f.anonymous && ScanTag(f) != "" && Lookup(text, ScanTag(f)) != ""
    ensures var v := Lookup(text, ScanTag(f)); var r := ScanField(text, f, parseTime).val;
      && (f.kind.IntField? && ScanSigned(f.kind.k) ==>
            && r == Num(f.kind.k, f.kind.k.Wrap(ParseInt(v).n))
            && (ParseInt(v).err == ErrSyntax ==> r == Num(f.kind.k, 0))
            && (ParseInt(v).err == ErrRange ==>
                  r == Num(f.kind.k, f.kind.k.Wrap(if v[0] == '-' then MinInt64 else MaxInt64)))
            && (ParseInt(v).err == NoError && f.kind.k.Lo() <= ParseInt(v).n <= f.kind.k.Hi() ==>
                  r == Num(f.kind.k, ParseInt(v).n)))
      && (f.kind.IntField? && ScanUnsigned(f.kind.k) ==>
            && r == Num(f.kind.k, f.kind.k.Wrap(ParseUint(v).n))
            && (ParseUint(v).err == ErrSyntax ==> r == Num(f.kind.k, 0))
            && (ParseUint(v).err == ErrRange ==> r == Num(f.kind.k, f.kind.k.Wrap(MaxUint64)))
            && (ParseUint(v).err == NoError && ParseUint(v).n <= f.kind.k.Hi() ==>
                  r == Num(f.kind.k, ParseUint(v).n)))
      && (f.kind == BoolField ==> r == Bool(v == "true"))
      && (f.kind == StringField ==> r == Str(v))
      && (f.kind == BytesField ==> r == Bytes(TextBytes(v)))
      && (f.kind == TimeField ==>
            r == (if parseTime(Split(v, "+")[0]).Some? then Str(parseTime(Split(v, "+")[0]).value) else f.val))
  {
  }

  // ------------------------------------------------------------ round trip

  /** The texts HGetAll gives back for a hash HMSet stored that json.Marshal accepts: the
      hash through JSON, then each value through ToStr. */
  function HashText(values: map<string, Value>): (r: map<string, string>)
    requires forall k :: k in values ==> !IsMap(values[k]) && InRange(values[k])
    requires Marshals(Map(values))
    ensures r.Keys == DecodedKeys(values.Keys)
  {
    var d := JsonDecode(Map(values)).entries;
    map k | k in d :: ToStr(d[k], []).value
  }

  /** The kinds scanValue reads back, for numbers the range a float64 (the type JSON
      decodes numbers into) holds exactly, and for tags and texts valid UTF-8, which JSON
      keeps as it is. */
  predicate Restorable(f: Field)
  {
    && WellTyped(f) && !f.anonymous && SetTag(f) != "" && ValidUtf8(SetTag(f))
    && match f.kind
       case IntField(k) => (ScanSigned(k) || ScanUnsigned(k)) && -Exact <= f.val.n <= Exact
       case StringField => ValidUtf8(f.val.s)
       case BoolField => true
       case BytesField => ValidUtf8(BytesText(f.val.data))
       case _ => false
  }

  /** 2^53: every integer of at most this magnitude is a float64. */
  const Exact: int := 0x20_0000_0000_0000

  /** The zero value of a field's kind. */
  function Zero(f: Field): Field
  {
    match f.kind
    case IntField(k) => f.(val := Num(k, 0))
    case FloatField(w) => f.(val := Float(w, "0"))
    case StringField => f.(val := Str(""))
    case BoolField => f.(val := Bool(false))
    case BytesField => f.(val := Bytes([]))
    case _ => f
  }

  /** The text HGetAll gives for a key that is valid UTF-8, in a hash whose keys all are:
      the key's own value through JSON and ToStr. */
  lemma HashTextAt(stored: map<string, Value>, tag: string)
    requires forall k :: k in stored ==>
      !IsMap(stored[k]) && InRange(stored[k]) && !NonFinite(stored[k]) && ValidUtf8(k)
    ensures HashText(stored).Keys == stored.Keys
    ensures tag in stored ==> HashText(stored)[tag] == ToStr(DecodeScalar(stored[tag]), []).value
  {
    JsonKeysValid(stored.Keys);
    if tag in stored {
      assert KeySource(stored.Keys, tag) == tag;
    }
  }

  /** Scanning the text HGetAll reports for a field restores it into a zeroed field. */
  lemma RestoreField(text: map<string, string>, f: Field, parseTime: string -> Option<string>)
    requires Restorable(f) && ScanTag(f) == SetTag(f)
    requires Lookup(text, SetTag(f)) == if Kept(f) then ToStr(DecodeScalar(Encode(f).val), []).value else ""
    ensures ScanField(text, Zero(f), parseTime) == f
  {
    match f.kind {
      case IntField(k) =>
        assert Kept(f);
        assert Lookup(text, SetTag(f)) == FormatInt(f.val.n, 10);
        if ScanSigned(k) {
          ParseIntFormat(f.val.n);
        } else {
          assert FormatInt(f.val.n, 10) == FormatNat(f.val.n, 10);
          ParseUintFormat(f.val.n);
        }
      case StringField =>
        CoerceValid(f.val.s);
      case BytesField =>
        if Kept(f) {
          CoerceValid(BytesText(f.val.data));
          TextBytesOfBytesText(f.val.data);
        }
      case BoolField =>
        assert Kept(f);
    }
  }

  /** HMSet followed by HGetAll and HMScan restores a record whose fields are restorable,
      carry distinct tags and use the same name for the cache and redis tags. */
  lemma RecordRoundTrip(fields: seq<Field>, parseTime: string -> Option<string>)
    requires forall j :: 0 <= j < |fields| ==> Restorable(fields[j]) && ScanTag(fields[j]) == SetTag(fields[j])
    requires forall i, j :: 0 <= i < j < |fields| ==> SetTag(fields[i]) != SetTag(fields[j])
    ensures forall k :: k in Flatten(fields) ==> !IsMap(Flatten(fields)[k]) && InRange(Flatten(fields)[k])
    ensures Marshals(Map(Flatten(fields)))
    ensures ScanFields(HashText(Flatten(fields)), ZeroAll(fields), parseTime) == fields
  {
    FlattenLeaves(fields);
    FlattenKeys(fields);
    var stored := Flatten(fields);
    forall k | k in stored
      ensures ValidUtf8(k) && !NonFinite(stored[k])
    {
      RestorableEntry(fields, k);
    }
    var text := HashText(stored);
    forall i | 0 <= i < |fields|
      ensures ScanField(text, Zero(fields[i]), parseTime) == fields[i]
    {
      RestoreAt(fields, i, parseTime);
    }
  }

  /** Every key of the hash of restorable fields is valid UTF-8, and no value is a float. */
  lemma RestorableEntry(fields: seq<Field>, k: string)
    requires forall j :: 0 <= j < |fields| ==> Restorable(fields[j])
    requires forall i, j :: 0 <= i < j < |fields| ==> SetTag(fields[i]) != SetTag(fields[j])
    requires k in Flatten(fields)
    ensures ValidUtf8(k) && !Flatten(fields)[k].Float?
    ensures exists j :: 0 <= j < |fields| && SetTag(fields[j]) == k
  {
    FlattenKeys(fields);
    var j :| 0 <= j < |fields| && SetTag(fields[j]) == k;
    RestorableLeaf(fields[j]);
    assert forall i :: 0 <= i < |fields| ==> !fields[i].anonymous;
    if Kept(fields[j]) {
      FlattenFlat(fields, j);
    } else {
      FlattenFlatAbsent(fields, k);
    }
  }

  lemma RestorableLeaf(f: Field)
    requires Restorable(f)
    ensures ValidUtf8(SetTag(f)) && !Encode(f).val.Float?
  {
  }

  lemma RestoreAt(fields: seq<Field>, i: int, parseTime: string -> Option<string>)
    requires forall j :: 0 <= j < |fields| ==> Restorable(fields[j]) && ScanTag(fields[j]) == SetTag(fields[j])
    requires forall i, j :: 0 <= i < j < |fields| ==> SetTag(fields[i]) != SetTag(fields[j])
    requires forall k :: k in Flatten(fields) ==>
      !IsMap(Flatten(fields)[k]) && InRange(Flatten(fields)[k]) && !NonFinite(Flatten(fields)[k])
      && ValidUtf8(k)
    requires 0 <= i < |fields|
    ensures ScanField(HashText(Flatten(fields)), Zero(fields[i]), parseTime) == fields[i]
  {
    var f := fields[i];
    var tag := SetTag(f);
    if Kept(f) {
      FlattenFlat(fields, i);
    } else {
      FlattenFlatAbsent(fields, tag);
    }
    HashTextAt(Flatten(fields), tag);
    RestoreField(HashText(Flatten(fields)), f, parseTime);
  }

  /** Without embedded fields, every key of the hash is some field's tag. */
  lemma {:induction false} FlattenKeys(fields: seq<Field>)
    requires forall j :: 0 <= j < |fields| ==> !fields[j].anonymous
    ensures forall k :: k in Flatten(fields) ==> exists j :: 0 <= j < |fields| && SetTag(fields[j]) == k
    decreases |fields|
  {
    if fields != [] {
      var n := |fields| - 1;
      var init := fields[..n];
      FlattenKeys(init);
      assert Flatten(fields) == Store(Flatten(init), fields[n]);
      forall k | k in Flatten(fields)
        ensures exists j :: 0 <= j < |fields| && SetTag(fields[j]) == k
      {
        if k in Flatten(init) {
          var j :| 0 <= j < |init| && SetTag(init[j]) == k;
          assert fields[j] == init[j];
        } else {
          assert Encode(fields[n]).tag == k;
          assert SetTag(fields[n]) == k;
        }
      }
    }
  }

  function ZeroAll(fs: seq<Field>): (r: seq<Field>)
    ensures |r| == |fs| && forall i :: 0 <= i < |fs| ==> r[i] == Zero(fs[i])
  {
    seq(|fs|, i requires 0 <= i < |fs| => Zero(fs[i]))
  }

  /** A flattened well-typed struct holds no maps. */
  lemma {:induction false} FlattenLeaves(fields: seq<Field>)
    requires forall j :: 0 <= j < |fields| ==> WellTyped(fields[j])
    ensures forall k :: k in Flatten(fields) ==> !IsMap(Flatten(fields)[k]) && InRange(Flatten(fields)[k])
    decreases |fields|
  {
    if fields != [] {
      var n := |fields| - 1;
      FlattenLeaves(fields[..n]);
      var f := fields[n];
      EncodeLeaf(f);
      if Children(f) != [] {
        forall i | 0 <= i < |f.embedded| ensures !IsMap(Encode(f.embedded[i]).val) && InRange(Encode(f.embedded[i]).val) {
          EncodeLeaf(f.embedded[i]);
        }
        ChildrenLeaves(Flatten(fields[..n]), Children(f));
      }
    }
  }

  lemma EncodeLeaf(f: Field)
    requires WellTyped(f)
    ensures !IsMap(Encode(f).val) && InRange(Encode(f).val)
  {
  }

  lemma {:induction false} ChildrenLeaves(values: map<string, Value>, cs: seq<Entry>)
    requires forall k :: k in values ==> !IsMap(values[k]) && InRange(values[k])
    requires forall i :: 0 <= i < |cs| ==> !IsMap(cs[i].val) && InRange(cs[i].val)
    ensures forall k :: k in StoreChildren(values, cs) ==>
      !IsMap(StoreChildren(values, cs)[k]) && InRange(StoreChildren(values, cs)[k])
    decreases |cs|
  {
    if cs != [] {
      ChildrenLeaves(values, cs[..|cs| - 1]);
    }
  }

  /** When a field's cache and redis tags differ, what HMSet stored under the one is not
      found under the other, and the field stays zero. */
  lemma TagMismatchLosesField(f: Field, parseTime: string -> Option<string>)
    requires Restorable(f) && ScanTag(f) != SetTag(f)
    ensures forall k :: k in Flatten([f]) ==> !IsMap(Flatten([f])[k]) && InRange(Flatten([f])[k])
    ensures Marshals(Map(Flatten([f])))
    ensures ScanField(HashText(Flatten([f])), Zero(f), parseTime) == Zero(f)
  {
    FlattenLeaves([f]);
    var stored := Flatten([f]);
    forall k | k in stored
      ensures k == SetTag(f) && !stored[k].Float?
    {
      RestorableEntry([f], k);
    }
    JsonKeysValid(stored.Keys);
    assert ScanTag(f) !in HashText(stored);
  }

  /** A string that is not valid UTF-8 does not survive the round trip: JSON replaces its
      bad bytes by U+FFFD and HMScan writes that text. */
  lemma InvalidTextNotRestored(f: Field, parseTime: string -> Option<string>)
    requires WellTyped(f) && !f.anonymous && f.kind == StringField && !ValidUtf8(f.val.s)
    requires SetTag(f) != "" && ValidUtf8(SetTag(f)) && ScanTag(f) == SetTag(f)
    ensures Flatten([f]) == map[SetTag(f) := f.val]
    ensures ScanField(HashText(Flatten([f])), Zero(f), parseTime).val == Str(Coerce(f.val.s)) != f.val
  {
    var tag, s := SetTag(f), f.val.s;
    CoerceChanges(s);
    FlattenOneString(f);
    HashTextOne(tag, f.val);
    assert DecodeScalar(Str(s)) == Str(Coerce(s));
    CoerceNonEmpty(s);
    ScanString(HashText(map[tag := f.val]), Zero(f), parseTime);
  }

  /** A single tagged string field that is not empty is stored under its tag. */
  lemma FlattenOneString(f: Field)
    requires WellTyped(f) && !f.anonymous && f.kind == StringField && SetTag(f) != "" && f.val != Str("")
    ensures Flatten([f]) == map[SetTag(f) := f.val]
  {
    assert Encode(f) == Entry(SetTag(f), f.val);
    assert [f][..0] == [];
  }

  /** The hash text of a one-entry map under a valid UTF-8 tag. */
  lemma HashTextOne(tag: string, v: Value)
    requires ValidUtf8(tag) && !IsMap(v) && InRange(v) && !NonFinite(v)
    ensures HashText(map[tag := v]).Keys == {tag}
    ensures HashText(map[tag := v])[tag] == ToStr(DecodeScalar(v), []).value
  {
    var m := map[tag := v];
    assert m.Keys == {tag} && m[tag] == v;
    assert forall k :: k in m ==> !IsMap(m[k]) && InRange(m[k]) && !NonFinite(m[k]) && ValidUtf8(k);
    HashTextAt(m, tag);
  }

  lemma ScanString(text: map<string, string>, f: Field, parseTime: string -> Option<string>)
    requires !f.anonymous && f.kind == StringField && ScanTag(f) != "" && Lookup(text, ScanTag(f)) != ""
    ensures ScanField(text, f, parseTime).val == Str(Lookup(text, ScanTag(f)))
  {
  }

  // ---------------------------------------------------------------- HMScan

  /** A struct that HMScan writes into through a pointer. */
  class Record {
    var fields: seq<Field>

    constructor (fields: seq<Field>)
      ensures this.fields == fields
    {
      this.fields := fields;
    }
  }

  /** The `dst` argument of HMScan: the nil interface, a value that is not a pointer to
      a struct, a nil pointer to a struct, or a pointer to a record. */
  datatype Dest = NilDest | NotStructPtr | NilStructPtr | RecordPtr(rec: Record)

  /** HMScan. reflect panics on the type of a nil interface and on the fields of a nil
      pointer's target; any other value that is not a pointer to a struct is refused. The
      fields of a record are scanned in place, in order. */
  method HMScan(text: map<string, string>, dst: Dest, parseTime: string -> Option<string>) returns (err: Option<Error>)
    modifies if dst.RecordPtr? then {dst.rec} else {}
    ensures dst.NilDest? ==> err == Some(Panic(NilType))
    ensures dst.NotStructPtr? ==> err == Some(ParsingFailed)
    ensures dst.NilStructPtr? ==> err == Some(Panic(ZeroValue))
    ensures dst.RecordPtr? ==> err == None && dst.rec.fields == ScanFields(text, old(dst.rec.fields), parseTime)
  {
    match dst
    case NilDest => return Some(Panic(NilType));
    case NotStructPtr => return Some(ParsingFailed);
    case NilStructPtr => return Some(Panic(ZeroValue));
    case RecordPtr(r) =>
      var i := 0;
      while i < |r.fields|
        invariant 0 <= i <= |r.fields| == |old(r.fields)|
        invariant r.fields[..i] == ScanFields(text, old(r.fields), parseTime)[..i]
        invariant r.fields[i..] == old(r.fields)[i..]
      {
        r.fields := r.fields[i := ScanField(text, r.fields[i], parseTime)];
        i := i + 1;
      }
      return None;
  }
}
