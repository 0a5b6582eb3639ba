/** The dynamically typed values the cache stores (Go `interface{}` values) and the helpers
    of utils.go that inspect them: the counter steps Incr and Decr, the scalar test
    isNotNumber, the formatter ToStr with its optional-argument reader argInt.Get, and
    StringInArray. Also the shape of a value after the JSON round trip that the file store
    applies to every non-scalar value. */
module Values {
  import opened Wrappers
  import opened GoText
  import opened Errors

  /** Go's integer types; `int` and `uint` are 64 bits wide. */
  datatype IntKind = Int | Int8 | Int16 | Int32 | Int64 | Uint | Uint8 | Uint16 | Uint32 | Uint64
  {
    predicate Signed()
    {
      this == Int || this == Int8 || this == Int16 || this == Int32 || this == Int64
    }

    /** 2 to the power of the width in bits. */
    function Modulus(): int
    {
      match this
      case Int8 | Uint8 => 0x100
      case Int16 | Uint16 => 0x1_0000
      case Int32 | Uint32 => 0x1_0000_0000
      case Int | Int64 | Uint | Uint64 => 0x1_0000_0000_0000_0000
    }

    function Lo(): int
    {
      if Signed() then -(Modulus() / 2) else 0
    }

    function Hi(): int
    {
      if Signed() then Modulus() / 2 - 1 else Modulus() - 1
    }

    /** Two's-complement wrap-around into the range of the type. */
    function Wrap(x: int): (r: int)
      ensures Lo() <= r <= Hi()
      ensures x - r == Modulus() * ((x - Lo()) / Modulus())
      ensures Lo() <= x <= Hi() ==> r == x
    {
      Reduce(x, Lo(), Modulus())
    }

    /** The Go spelling of the type. */
    function Name(): string
    {
      match this
      case Int => "int"
      case Int8 => "int8"
      case Int16 => "int16"
      case Int32 => "int32"
      case Int64 => "int64"
      case Uint => "uint"
      case Uint8 => "uint8"
      case Uint16 => "uint16"
      case Uint32 => "uint32"
      case Uint64 => "uint64"
    }
  }

  /** x moved by a multiple of m into [lo, lo + m). */
  function Reduce(x: int, lo: int, m: int): (r: int)
    requires m > 0
    ensures lo <= r < lo + m
    ensures x - r == m * ((x - lo) / m)
    ensures lo <= x < lo + m ==> r == x
  {
    (x - lo) % m + lo
  }

  datatype FloatKind = Float32 | Float64

  /** A Go `interface{}` value of one of the types the cache handles. A float is
      represented by the text strconv.FormatFloat(v, 'f', -1, width) gives for it. */
  datatype Value =
    | Num(kind: IntKind, n: int)
    | Float(width: FloatKind, text: string)
    | Str(s: string)
    | Bool(b: bool)
    | Bytes(data: seq<byte>)                // a []byte that is not nil
    | NilBytes                              // a nil []byte
    | Nil                                   // the nil interface
    | Map(entries: map<string, Value>)      // map[string]interface{}
    | StrMap(fields: map<string, string>)   // map[string]string
    | NilStrMap                             // a nil map[string]string

  /** The number is within the range of its type. */
  predicate InRange(v: Value)
  {
    v.Num? ==> v.kind.Lo() <= v.n <= v.kind.Hi()
  }

  predicate IsMap(v: Value)
  {
    v.Map? || v.StrMap? || v.NilStrMap?
  }

  /** A value the model handles: numbers in range, and maps only one level deep. */
  predicate WellFormed(v: Value)
  {
    if v.Map? then forall k :: k in v.entries ==> !IsMap(v.entries[k]) && InRange(v.entries[k])
    else InRange(v)
  }

  /** The Go type name of a value, as fmt's %T prints it. */
  function TypeName(v: Value): string
  {
    match v
    case Num(k, _) => k.Name()
    case Float(Float32, _) => "float32"
    case Float(Float64, _) => "float64"
    case Str(_) => "string"
    case Bool(_) => "bool"
    case Bytes(_) => "[]uint8"
    case NilBytes => "[]uint8"
    case Nil => "<nil>"
    case Map(_) => "map[string]interface {}"
    case StrMap(_) => "map[string]string"
    case NilStrMap => "map[string]string"
  }

  // ------------------------------------------------------------- counters

  /** The integer types Incr and Decr accept. */
  predicate CounterKind(k: IntKind)
  {
    k == Int || k == Int32 || k == Int64 || k == Uint || k == Uint32 || k == Uint64
  }

  predicate IsCounter(v: Value)
  {
    v.Num? && CounterKind(v.kind)
  }

  /** A value returned together with an error (Go returns both). */
  datatype Counted = Counted(val: Value, err: Option<Error>)

  /** utils.Incr: add one in the value's own type, wrapping at the top of its range. */
  function Incr(v: Value): (r: Counted)
    ensures r.err == None <==> IsCounter(v)
    ensures r.err != None ==> r == Counted(v, Some(NotIntType))
    ensures r.err == None ==> r.val.Num? && r.val.kind == v.kind && InRange(r.val)
  {
    if IsCounter(v) then Counted(Num(v.kind, v.kind.Wrap(v.n + 1)), None)
    else Counted(v, Some(NotIntType))
  }

  /** utils.Decr: subtract one in the value's own type; an unsigned zero is refused. */
  function Decr(v: Value): (r: Counted)
    ensures r.err == None <==> IsCounter(v) && (v.kind.Signed() || v.n > 0)
    ensures r.err != None ==> r.val == v
    ensures r.err == Some(NotIntType) <==> !IsCounter(v)
    ensures r.err == None ==> r.val.Num? && r.val.kind == v.kind && InRange(r.val)
  {
    if !IsCounter(v) then Counted(v, Some(NotIntType))
    else if v.kind.Signed() then Counted(Num(v.kind, v.kind.Wrap(v.n - 1)), None)
    else if v.n > 0 then Counted(Num(v.kind, v.kind.Wrap(v.n - 1)), None)
    else Counted(v, Some(LessThanZero))
  }

  /** Incr adds exactly one below the top of the range and wraps to the bottom at the top. */
  lemma IncrStep(k: IntKind, n: int)
    requires CounterKind(k) && k.Lo() <= n <= k.Hi()
    ensures Incr(Num(k, n)) == Counted(Num(k, if n < k.Hi() then n + 1 else k.Lo()), None)
  {
    if n == k.Hi() {
      assert n + 1 - k.Lo() == k.Modulus();
    }
  }

  /** Decr refuses an unsigned zero, keeping it, and otherwise subtracts exactly one,
      except that a signed minimum wraps to the maximum. */
  lemma DecrStep(k: IntKind, n: int)
    requires CounterKind(k) && k.Lo() <= n <= k.Hi()
    ensures !k.Signed() && n == 0 ==> Decr(Num(k, n)) == Counted(Num(k, 0), Some(LessThanZero))
    ensures k.Signed() || n > 0 ==>
      Decr(Num(k, n)) == Counted(Num(k, if n > k.Lo() then n - 1 else k.Hi()), None)
  {
    if k.Signed() && n == k.Lo() {
      assert n - 1 - k.Lo() == -1;
      assert (-1) % k.Modulus() == k.Modulus() - 1;
    }
  }

  /** Decrementing an incremented signed counter gives it back, wrap-around included;
      for unsigned counters the same holds below the top of the range. */
  lemma DecrIncr(v: Value)
    requires IsCounter(v) && InRange(v)
    requires !v.kind.Signed() ==> v.n < v.kind.Hi()
    ensures Decr(Incr(v).val) == Counted(v, None)
  {
    IncrStep(v.kind, v.n);
    var w := Incr(v).val;
    DecrStep(w.kind, w.n);
  }

  /** Incrementing the result of a successful Decr gives the original value back. */
  lemma IncrDecr(v: Value)
    requires InRange(v) && Decr(v).err == None
    ensures Incr(Decr(v).val) == Counted(v, None)
  {
    DecrStep(v.kind, v.n);
    var w := Decr(v).val;
    IncrStep(w.kind, w.n);
  }

  /** An unsigned maximum wraps to zero, which Decr then refuses: the round trip fails. */
  lemma UnsignedTopDoesNotRoundTrip()
    ensures Incr(Num(Uint32, 0xFFFF_FFFF)).val == Num(Uint32, 0)
    ensures Decr(Incr(Num(Uint32, 0xFFFF_FFFF)).val).err == Some(LessThanZero)
  {
  }

  // ---------------------------------------------------------------- scalars

  /** utils.isNotNumber: false exactly for Go's numeric, string and bool types. */
  predicate IsNotNumber(v: Value)
  {
    match v
    case Num(_, _) | Float(_, _) | Str(_) | Bool(_) => false
    case _ => true
  }

  /** The fourteen type names the type switch in isNotNumber lists. */
  const ScalarTypeNames: set<string> :=
    {"int", "int8", "int16", "int32", "int64", "uint", "uint8", "uint16", "uint32", "uint64",
     "float32", "float64", "string", "bool"}

  /** isNotNumber is false exactly for a value whose dynamic type is one of the fourteen
      listed types. */
  lemma IsNotNumberByType(v: Value)
    ensures !IsNotNumber(v) <==> TypeName(v) in ScalarTypeNames
  {
    match v
    case Bytes(_) => assert TypeName(v) == "[]uint8";
    case NilBytes => assert TypeName(v) == "[]uint8";
    case Nil => assert TypeName(v) == "<nil>";
    case Map(_) => assert TypeName(v) == "map[string]interface {}";
    case StrMap(_) => assert TypeName(v) == "map[string]string";
    case NilStrMap => assert TypeName(v) == "map[string]string";
    case _ =>
  }

  // ----------------------------------------------------------------- ToStr

  /** argInt.Get: the i-th argument, else the first default, else 0. */
  function ArgGet(a: seq<int>, i: int, defaults: seq<int>): (r: int)
    ensures 0 <= i < |a| ==> r == a[i]
    ensures !(0 <= i < |a|) && |defaults| > 0 ==> r == defaults[0]
    ensures !(0 <= i < |a|) && |defaults| == 0 ==> r == 0
  {
    if 0 <= i < |a| then a[i] else if |defaults| > 0 then defaults[0] else 0
  }

  /** The cases of ToStr the model covers: a map is printed by fmt (not modelled), and a
      float is covered without arguments (its precision and width arguments are not
      modelled). */
  predicate ToStrDefined(v: Value, args: seq<int>)
  {
    !IsMap(v) && (v.Float? ==> args == [])
  }

  /** A Go []byte converted to a string. */
  function BytesText(d: seq<byte>): (r: string)
    ensures |r| == |d| && forall k :: 0 <= k < |d| ==> r[k] as int == d[k]
  {
    seq(|d|, k requires 0 <= k < |d| => d[k] as char)
  }

  /** utils.ToStr: integers in the base args[0] (default ten), bools as "true"/"false",
      strings unchanged, byte slices as text (a nil one as ""), nil as fmt prints it.
      strconv panics on an integer base outside 2..36. */
  function ToStr(v: Value, args: seq<int>): (r: Outcome<string>)
    requires ToStrDefined(v, args)
    ensures r.Fail? <==> v.Num? && !(2 <= ArgGet(args, 0, [10]) <= 36)
    ensures r.Fail? ==> r.err == Panic(IllegalBase)
  {
    match v
    case Bool(b) => Ok(if b then "true" else "false")
    case Float(_, text) => Ok(text)
    case Num(_, n) =>
      var base := ArgGet(args, 0, [10]);
      if 2 <= base <= 36 then Ok(FormatInt(n, base)) else Fail(Panic(IllegalBase))
    case Str(s) => Ok(s)
    case Bytes(d) => Ok(BytesText(d))
    case NilBytes => Ok("")
    case Nil => Ok("<nil>")
  }

  /** An integer is written in the base its first argument names, ten by default, and
      any other base panics. */
  lemma ToStrBase(k: IntKind, n: int, base: int)
    ensures ToStr(Num(k, n), []) == Ok(FormatInt(n, 10))
    ensures 2 <= base <= 36 ==> ToStr(Num(k, n), [base]) == Ok(FormatInt(n, base))
    ensures !(2 <= base <= 36) ==> ToStr(Num(k, n), [base]) == Fail(Panic(IllegalBase))
  {
  }

  /** Without arguments ToStr writes integers in base ten: ParseInt / ParseUint read back
      exactly the number, for every value of every integer type. */
  lemma ToStrDecimal(v: Value)
    requires v.Num? && InRange(v)
    ensures ToStr(v, []).Ok?
    ensures v.kind.Signed() ==> ParseInt(ToStr(v, []).value) == Parsed(v.n, NoError)
    ensures !v.kind.Signed() ==> ParseUint(ToStr(v, []).value) == Parsed(v.n, NoError)
  {
    if v.kind.Signed() {
      ParseIntFormat(v.n);
    } else {
      ParseUintFormat(v.n);
    }
  }

  /** The text of a bool, a string and a byte slice. */
  lemma ToStrText(b: bool, s: string, d: seq<byte>)
    ensures ToStr(Bool(b), []) == Ok(if b then "true" else "false")
    ensures ToStr(Str(s), []) == Ok(s)
    ensures ToStr(Bytes(d), []).Ok? && |ToStr(Bytes(d), []).value| == |d|
    ensures forall k :: 0 <= k < |d| ==> ToStr(Bytes(d), []).value[k] as int == d[k]
  {
  }

  /** fmt's %v of a number, a string or a bool, the values Set stores without JSON:
      ToStr's text, except that a float is printed in the shortest 'g' form. */
  function Sprint(v: Value): string
    requires !IsMap(v)
  {
    if v.Float? then FormatG(v.text) else ToStr(v, []).value
  }

  /** %v agrees with ToStr on integers, strings and bools; a float of a million prints
      as 1e+06 under %v and as 1000000 under ToStr. */
  lemma SprintAgrees(v: Value, w: FloatKind)
    requires v.Num? || v.Str? || v.Bool?
    ensures ToStr(v, []) == Ok(Sprint(v))
    ensures Sprint(Float(w, "1000000")) == "1e+06" && ToStr(Float(w, "1000000"), []) == Ok("1000000")
  {
    FormatGMillion();
  }

  /** utils.StringInArray: a linear search. */
  method StringInArray(item: string, items: seq<string>) returns (found: bool)
    ensures found <==> item in items
  {
    var i := 0;
    while i < |items|
      invariant 0 <= i <= |items|
      invariant item !in items[..i]
    {
      if items[i] == item {
        return true;
      }
      i := i + 1;
    }
    assert items[..i] == items;
    return false;
  }

  // ------------------------------------------------------------------- JSON

  /** The keys of a map after json.Marshal and json.Unmarshal. */
  function DecodedKeys(keys: set<string>): set<string>
  {
    set k | k in keys :: Coerce(k)
  }

  /** The original key whose entry the decoder keeps under the decoded key `key`:
      json.Marshal writes the keys sorted by their bytes and json.Unmarshal keeps the last
      of equal keys, so among the keys that decode to `key` the greatest wins. */
  function KeySource(keys: set<string>, key: string): (r: string)
    requires key in DecodedKeys(keys)
    ensures r in keys && Coerce(r) == key
    ensures forall k :: k in keys && Coerce(k) == key ==> NotAfter(k, r)
  {
    SourcesExist(keys, key);
    Greatest(Sources(keys, key))
  }

  /** The original keys that decode to `key`. */
  function Sources(keys: set<string>, key: string): set<string>
  {
    set k | k in keys && Coerce(k) == key
  }

  lemma SourcesExist(keys: set<string>, key: string)
    requires key in DecodedKeys(keys)
    ensures Sources(keys, key) != {}
  {
    var o :| o in keys && Coerce(o) == key;
    assert o in Sources(keys, key);
  }

  /** A float json.Marshal refuses: NaN or an infinity, which strconv writes as "NaN",
      "+Inf" and "-Inf". */
  predicate NonFinite(x: Value)
  {
    x.Float? && x.text in {"NaN", "+Inf", "-Inf"}
  }

  /** json.Marshal succeeds on the value: it is not a map holding a float it refuses. */
  predicate Marshals(v: Value)
  {
    v.Map? ==> forall k :: k in v.entries ==> !NonFinite(v.entries[k])
  }

  /** What json.Unmarshal into an interface{} leaves for the bytes json.Marshal gave for a
      value. When Marshal fails, its bytes are nil; Unmarshal refuses them and leaves the
      nil []byte where it found it. Otherwise numbers come back as float64, byte slices as
      their base64 text, nil byte slices and nil maps (written as null) as nil, and maps as
      map[string]interface{}; in strings and keys every byte that does not begin a valid
      UTF-8 sequence has become U+FFFD. */
  function JsonDecode(v: Value): (r: Value)
    requires WellFormed(v)
    ensures WellFormed(r) && !r.StrMap? && !r.NilStrMap? && Marshals(r)
    ensures r == NilBytes <==> !Marshals(v)
    ensures IsMap(v) && Marshals(v) <==> r.Map? || (v.NilStrMap? && r.Nil?)
    ensures v.Map? && Marshals(v) ==> r.Map? && r.entries.Keys == DecodedKeys(v.entries.Keys)
    ensures v.StrMap? ==> r.Map? && r.entries.Keys == DecodedKeys(v.fields.Keys)
  {
    if !Marshals(v) then NilBytes
    else match v
    case Map(m) => Map(DecodeEntries(m))
    case StrMap(m) => Map(map k | k in DecodedKeys(m.Keys) :: Str(Coerce(m[KeySource(m.Keys, k)])))
    case NilStrMap => Nil
    case _ => DecodeScalar(v)
  }

  /** The entries of a map[string]interface{} through JSON, each key coerced and the
      greatest of the keys that coerce alike giving its value. */
  function DecodeEntries(m: map<string, Value>): (r: map<string, Value>)
    requires forall k :: k in m ==> !IsMap(m[k]) && InRange(m[k])
    ensures r.Keys == DecodedKeys(m.Keys)
    ensures forall k :: k in r ==> !IsMap(r[k]) && InRange(r[k])
    ensures Marshals(Map(m)) ==> Marshals(Map(r))
  {
    map k | k in DecodedKeys(m.Keys) :: DecodeScalar(m[KeySource(m.Keys, k)])
  }

  function DecodeScalar(v: Value): (r: Value)
    requires !IsMap(v)
    ensures !IsMap(r) && InRange(r) && !r.Num? && !r.NilBytes?
    ensures NonFinite(r) <==> NonFinite(v)
  {
    match v
    case Num(_, n) => FormatIntFinite(n); Float(Float64, FormatInt(n, 10))
    case Float(_, text) => Float(Float64, text)
    case Str(s) => Str(Coerce(s))
    case Bytes(d) => Str(Base64(d))
    case NilBytes => Nil
    case _ => v
  }

  /** The decimal text of an integer is not one that names NaN or an infinity: it ends in a
      digit. */
  lemma FormatIntFinite(n: int)
    ensures FormatInt(n, 10) !in {"NaN", "+Inf", "-Inf"}
  {
    var d := FormatNat(if n < 0 then -n else n, 10);
    FormatNatDigits(if n < 0 then -n else n);
    assert FormatInt(n, 10)[|FormatInt(n, 10)| - 1] == d[|d| - 1];
  }

  /** Keys that are valid UTF-8 come back as they are, each with its own entry. */
  lemma JsonKeysValid(keys: set<string>)
    requires forall k :: k in keys ==> ValidUtf8(k)
    ensures DecodedKeys(keys) == keys
    ensures forall k :: k in keys ==> KeySource(keys, k) == k
  {
    forall k | k in keys
      ensures Coerce(k) == k
    {
      CoerceValid(k);
    }
    forall k | k in keys
      ensures KeySource(keys, k) == k
    {
      var r := KeySource(keys, k);
      assert Coerce(r) == r;
    }
  }

  /** A string-to-string map comes back from JSON with the keys and texts coerced to
      UTF-8, and unchanged when they are valid. */
  lemma JsonStrMap(m: map<string, string>)
    ensures JsonDecode(StrMap(m)).Map? && JsonDecode(StrMap(m)).entries.Keys == DecodedKeys(m.Keys)
    ensures (forall k :: k in m ==> ValidUtf8(k) && ValidUtf8(m[k])) ==>
      JsonDecode(StrMap(m)).entries.Keys == m.Keys
      && forall k :: k in m ==> JsonDecode(StrMap(m)).entries[k] == Str(m[k])
  {
    if forall k :: k in m ==> ValidUtf8(k) && ValidUtf8(m[k]) {
      JsonKeysValid(m.Keys);
      forall k | k in m
        ensures JsonDecode(StrMap(m)).entries[k] == Str(m[k])
      {
        CoerceValid(m[k]);
      }
    }
  }

  /** What JSON gives back, stored again, comes back unchanged: decoded strings and keys
      are valid UTF-8, and decoded numbers are already float64. The nil []byte a failed
      Marshal leaves is the exception: stored again, it is written as null and comes back
      as nil. */
  lemma JsonDecodeIdempotent(v: Value)
    requires WellFormed(v)
    ensures Marshals(v) ==> JsonDecode(JsonDecode(v)) == JsonDecode(v)
    ensures !Marshals(v) ==> JsonDecode(v) == NilBytes && JsonDecode(JsonDecode(v)) == Nil
  {
    var r := JsonDecode(v);
    if !Marshals(v) {
    } else if r.Map? {
      var m := r.entries;
      forall k | k in m
        ensures ValidUtf8(k)
      {
        DecodedKeyValid(if v.Map? then v.entries.Keys else v.fields.Keys, k);
      }
      forall k | k in m
        ensures DecodeScalar(m[k]) == m[k]
      {
        ScalarStable(m[k], v, k);
      }
      DecodedMapStable(m);
    } else if !v.NilStrMap? {
      DecodeScalarStable(v);
    }
  }

  lemma DecodedKeyValid(keys: set<string>, k: string)
    requires k in DecodedKeys(keys)
    ensures ValidUtf8(k)
  {
    var o :| o in keys && Coerce(o) == k;
    CoerceIsValid(o);
  }

  /** A map of valid keys whose scalars JSON leaves as they are. */
  lemma DecodedMapStable(m: map<string, Value>)
    requires forall k :: k in m ==> ValidUtf8(k) && !IsMap(m[k]) && InRange(m[k])
    requires forall k :: k in m ==> DecodeScalar(m[k]) == m[k]
    requires Marshals(Map(m))
    ensures JsonDecode(Map(m)) == Map(m)
  {
    JsonKeysValid(m.Keys);
    assert JsonDecode(Map(m)).entries == m;
  }

  lemma ScalarStable(x: Value, v: Value, k: string)
    requires WellFormed(v) && JsonDecode(v).Map? && k in JsonDecode(v).entries
    requires x == JsonDecode(v).entries[k]
    ensures DecodeScalar(x) == x
  {
    if v.Map? {
      DecodeScalarStable(v.entries[KeySource(v.entries.Keys, k)]);
    } else {
      CoerceIsValid(v.fields[KeySource(v.fields.Keys, k)]);
      CoerceValid(Coerce(v.fields[KeySource(v.fields.Keys, k)]));
    }
  }

  lemma DecodeScalarStable(v: Value)
    requires !IsMap(v)
    ensures DecodeScalar(DecodeScalar(v)) == DecodeScalar(v)
  {
    match v
    case Str(s) => CoerceIsValid(s); CoerceValid(Coerce(s));
    case Bytes(d) => AsciiValid(Base64(d)); CoerceValid(Base64(d));
    case _ =>
  }

  /** A lone byte above 0x7F does not survive JSON, in a string or in a key. */
  lemma JsonReplacesInvalid(c: char, x: Value)
    requires c as int >= 0x80 && !IsMap(x) && InRange(x) && !NonFinite(x)
    ensures JsonDecode(Str([c])) == Str(Replacement) != Str([c])
    ensures JsonDecode(Map(map[[c] := x])).entries.Keys == {Replacement}
  {
    LoneHighByte(c);
    assert DecodedKeys(map[[c] := x].Keys) == {Coerce([c])};
  }

  /** Two keys that decode to the same text collide, and the greater one's entry wins. */
  lemma JsonKeysCollide(a: Value, b: Value)
    requires !IsMap(a) && InRange(a) && !IsMap(b) && InRange(b) && !NonFinite(a) && !NonFinite(b)
    ensures var m := map[[0x80 as char] := a, [0x81 as char] := b];
      JsonDecode(Map(m)) == Map(map[Replacement := DecodeScalar(b)])
  {
    var lo, hi := [0x80 as char], [0x81 as char];
    var m := map[lo := a, hi := b];
    LoneHighByte(lo[0]);
    LoneHighByte(hi[0]);
    assert DecodedKeys(m.Keys) == {Replacement};
    var r := KeySource(m.Keys, Replacement);
    assert NotAfter(hi, r);
    assert r == hi;
  }
}
