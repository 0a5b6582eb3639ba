/** The Go standard-library text routines the cache core relies on, written out so that
    their edge cases are explicit: strings.Index / Contains / Split, the path cleaning done
    by filepath.Join, strconv.FormatInt / ParseUint / ParseInt (base 10, 64 bits) and the
    standard base64 alphabet used by encoding/json for byte slices.
    A Go string is a Dafny string with one character per byte. */
module GoText {

  /** A Go byte. */
  type byte = x: int | 0 <= x < 256

  // ---------------------------------------------------------------- strings

  /** `sep` occurs in `s` starting at position `i`. */
  predicate At(s: string, sep: string, i: int)
  {
    0 <= i && i + |sep| <= |s| && s[i..i + |sep|] == sep
  }

  lemma AtShift(s: string, sep: string, i: int)
    requires |s| > 0 && i >= 1
    ensures At(s, sep, i) <==> At(s[1..], sep, i - 1)
  {
    if i + |sep| <= |s| {
      assert s[1..][i - 1..i - 1 + |sep|] == s[i..i + |sep|];
    }
  }

  /** strings.Index: the first position at which `sep` occurs in `s`, or -1. */
  function Index(s: string, sep: string): (r: int)
    ensures r == -1 || At(s, sep, r)
    ensures forall i :: 0 <= i && (r == -1 || i < r) ==> !At(s, sep, i)
    decreases |s|
  {
    if |s| < |sep| then -1
    else if s[..|sep|] == sep then 0
    else
      var r := Index(s[1..], sep);
      assert forall i :: 1 <= i ==> (At(s, sep, i) <==> At(s[1..], sep, i - 1)) by {
        forall i | 1 <= i { AtShift(s, sep, i); }
      }
      if r < 0 then -1 else r + 1
  }

  /** strings.Contains. */
  predicate Contains(s: string, sep: string)
  {
    Index(s, sep) >= 0
  }

  lemma ContainsAt(s: string, sep: string, i: int)
    requires At(s, sep, i)
    ensures Contains(s, sep)
  {
  }

  /** strings.HasPrefix. */
  predicate HasPrefix(s: string, prefix: string)
  {
    |prefix| <= |s| && s[..|prefix|] == prefix
  }

  /** strings.Split for a non-empty separator: the pieces between the leftmost
      non-overlapping occurrences of `sep`, read from the front. */
  function Split(s: string, sep: string): (r: seq<string>)
    requires |sep| > 0
    ensures |r| >= 1
    decreases |s|
  {
    if |s| < |sep| then [s]
    else if s[..|sep|] == sep then [""] + Split(s[|sep|..], sep)
    else
      var rest := Split(s[1..], sep);
      [[s[0]] + rest[0]] + rest[1..]
  }

  /** Splitting at a one-character separator distributes over a join at that separator. */
  lemma {:induction false} SplitJoined(a: string, c: char, b: string)
    ensures Split(a + [c] + b, [c]) == Split(a, [c]) + Split(b, [c])
    decreases |a|
  {
    var s := a + [c] + b;
    if a == [] {
      assert s[..1] == [c] && s[1..] == b;
    } else {
      assert s[..1] == a[..1];
      assert s[1..] == a[1..] + [c] + b;
      SplitJoined(a[1..], c, b);
    }
  }

  // ------------------------------------------------------------------ paths

  /** The pieces of a '/'-separated path that name a directory step: what the path
      cleaning of filepath.Join keeps ("." and empty pieces dropped; ".." is not resolved). */
  function Segments(path: string): (r: seq<string>)
    ensures forall k :: 0 <= k < |r| ==> r[k] != "" && r[k] != "."
  {
    Steps(Split(path, "/"))
  }

  /** A single path step. */
  predicate IsSegment(s: string)
  {
    s != "" && s != "." && !Contains(s, "/")
  }

  function Steps(parts: seq<string>): (r: seq<string>)
    ensures forall k :: 0 <= k < |r| ==> r[k] != "" && r[k] != "."
  {
    if parts == [] then []
    else (if parts[0] == "" || parts[0] == "." then [] else [parts[0]]) + Steps(parts[1..])
  }

  lemma {:induction false} StepsAppend(a: seq<string>, b: seq<string>)
    ensures Steps(a + b) == Steps(a) + Steps(b)
  {
    if a != [] {
      assert (a + b)[0] == a[0];
      assert (a + b)[1..] == a[1..] + b;
      StepsAppend(a[1..], b);
      assert Steps(a + b) == (if a[0] == "" || a[0] == "." then [] else [a[0]]) + Steps(a[1..] + b);
    } else {
      assert a + b == b;
    }
  }

  /** Joining two paths with "/" joins their steps. */
  lemma SegmentsJoin(a: string, b: string)
    ensures Segments(a + "/" + b) == Segments(a) + Segments(b)
  {
    SplitJoined(a, '/', b);
    StepsAppend(Split(a, "/"), Split(b, "/"));
  }

  /** A single step is its own path. */
  lemma SegmentsOfStep(s: string)
    requires IsSegment(s)
    ensures Segments(s) == [s]
  {
    SplitFree(s, "/");
    assert Steps([s]) == [s] + Steps([]);
  }

  /** A text without the separator splits into itself alone. */
  lemma {:induction false} SplitFree(s: string, sep: string)
    requires |sep| > 0 && !Contains(s, sep)
    ensures Split(s, sep) == [s]
    decreases |s|
  {
    if |s| >= |sep| {
      assert !At(s, sep, 0);
      assert !Contains(s[1..], sep);
      SplitFree(s[1..], sep);
      assert [s[0]] + s[1..] == s;
    }
  }

  /** For a one-character separator, Contains is membership. */
  lemma ContainsChar(s: string, c: char)
    ensures Contains(s, [c]) <==> c in s
  {
    if c in s {
      var i :| 0 <= i < |s| && s[i] == c;
      assert s[i..i + 1] == [c];
      ContainsAt(s, [c], i);
    }
    if Contains(s, [c]) {
      var r := Index(s, [c]);
      assert s[r..r + 1][0] == s[r];
    }
  }

  /** The first piece of a split at one character is the text before the first occurrence
      of that character, and a second piece exists exactly when the character occurs. */
  lemma {:induction false} SplitHead(s: string, c: char)
    ensures |Split(s, [c])[0]| <= |s|
    ensures Split(s, [c])[0] == s[..|Split(s, [c])[0]|]
    ensures c !in Split(s, [c])[0]
    ensures |Split(s, [c])| >= 2 <==> c in s
    ensures c in s ==> s[|Split(s, [c])[0]|] == c
    decreases |s|
  {
    if |s| >= 1 {
      if s[..1] == [c] {
        assert s[0] == c;
      } else {
        assert s[0] != c;
        SplitHead(s[1..], c);
        var rest := Split(s[1..], [c]);
        var h := [s[0]] + rest[0];
        assert Split(s, [c]) == [h] + rest[1..];
        assert h == s[..|h|];
        assert c in s <==> c in s[1..] by {
          assert s == [s[0]] + s[1..];
        }
      }
    }
  }

  /** strings.SplitN(s, sep, 2) for a one-character separator that occurs in `s`: the text
      before its first occurrence and the text after it. */
  function Cut(s: string, c: char): (r: (string, string))
    requires c in s
    ensures r.0 + [c] + r.1 == s
    ensures c !in r.0
  {
    if s[0] == c then ("", s[1..])
    else
      var rest := Cut(s[1..], c);
      ([s[0]] + rest.0, rest.1)
  }

  /** Cut is the only split at the first occurrence of the character. */
  lemma CutUnique(s: string, c: char, a: string, b: string)
    requires a + [c] + b == s && c !in a
    ensures c in s && Cut(s, c) == (a, b)
  {
    var r := Cut(s, c);
    assert forall i :: 0 <= i < |a| ==> s[i] == a[i];
    assert forall i :: 0 <= i < |r.0| ==> s[i] == r.0[i];
    assert s[|a|] == c && s[|r.0|] == c;
    assert |r.0| == |a|;
    assert r.0 == s[..|a|] == a;
    assert r.1 == s[|a| + 1..] == b;
  }

  /** A text that does not hold the separator's first character is a whole piece. */
  lemma {:induction false} SplitAtFirst(a: string, sep: string, b: string)
    requires |sep| > 0 && sep[0] !in a
    ensures Split(a + sep + b, sep) == [a] + Split(b, sep)
    decreases |a|
  {
    var s := a + sep + b;
    if a == [] {
      assert s[..|sep|] == sep && s[|sep|..] == b;
    } else {
      assert s[..|sep|][0] == a[0] != sep[0];
      assert s[1..] == a[1..] + sep + b;
      SplitAtFirst(a[1..], sep, b);
      assert [a[0]] + a[1..] == a;
    }
  }

  // ---------------------------------------------------------------- numbers

  const MaxUint64: int := 0xFFFF_FFFF_FFFF_FFFF
  const MaxInt64: int := 0x7FFF_FFFF_FFFF_FFFF
  const MinInt64: int := -0x8000_0000_0000_0000

  /** The character for digit `d` in the bases up to 36. */
  function DigitChar(d: int): char
    requires 0 <= d < 36
  {
    if d < 10 then ('0' as int + d) as char else ('a' as int + d - 10) as char
  }

  /** strconv.FormatUint: `n` in base `base`, most significant digit first, no leading zeros. */
  function FormatNat(n: nat, base: int): (r: string)
    requires 2 <= base <= 36
    ensures |r| >= 1
    decreases n
  {
    if n < base then [DigitChar(n)] else FormatNat(n / base, base) + [DigitChar(n % base)]
  }

  /** strconv.FormatInt: a '-' sign for negative numbers, then the digits. */
  function FormatInt(n: int, base: int): (r: string)
    requires 2 <= base <= 36
  {
    if n < 0 then "-" + FormatNat(-n, base) else FormatNat(n, base)
  }

  predicate IsDigit(c: char)
  {
    '0' <= c <= '9'
  }

  predicate AllDigits(s: string)
  {
    forall k :: 0 <= k < |s| ==> IsDigit(s[k])
  }

  /** The number a string of decimal digits denotes. */
  function DecimalValue(s: string): nat
    requires AllDigits(s)
  {
    if s == [] then 0 else DecimalValue(s[..|s| - 1]) * 10 + (s[|s| - 1] as int - '0' as int)
  }

  function Pow10(k: nat): nat
  {
    if k == 0 then 1 else 10 * Pow10(k - 1)
  }

  /** The error a strconv parse reports. */
  datatype NumError = NoError | ErrSyntax | ErrRange

  /** A number with the error reported beside it (Go returns both). */
  datatype Parsed = Parsed(n: int, err: NumError)

  /** The digit loop of strconv.ParseUint(s, 10, 64): left to right; a non-digit gives
      (0, syntax error), an overflow gives (MaxUint64, range error), whichever comes first. */
  function ParseDigits(s: string, acc: nat): (r: Parsed)
    requires acc <= MaxUint64
    ensures 0 <= r.n <= MaxUint64
    ensures r.err == ErrSyntax ==> r.n == 0
    ensures r.err == ErrRange ==> r.n == MaxUint64
    decreases |s|
  {
    if s == [] then Parsed(acc, NoError)
    else if !IsDigit(s[0]) then Parsed(0, ErrSyntax)
    else if acc >= MaxUint64 / 10 + 1 then Parsed(MaxUint64, ErrRange)
    else
      var n1 := acc * 10 + (s[0] as int - '0' as int);
      if n1 > MaxUint64 then Parsed(MaxUint64, ErrRange) else ParseDigits(s[1..], n1)
  }

  /** strconv.ParseUint(s, 10, 64). */
  function ParseUint(s: string): (r: Parsed)
    ensures 0 <= r.n <= MaxUint64
    ensures r.err == ErrSyntax ==> r.n == 0
    ensures r.err == ErrRange ==> r.n == MaxUint64
  {
    if s == "" then Parsed(0, ErrSyntax) else ParseDigits(s, 0)
  }

  /** strconv.ParseInt(s, 10, 64): an optional sign, then ParseUint; out-of-range
      magnitudes are clamped to the int64 bounds with a range error. */
  function ParseInt(s: string): (r: Parsed)
    ensures MinInt64 <= r.n <= MaxInt64
    ensures r.err == ErrSyntax ==> r.n == 0
    ensures r.err == ErrRange ==> s != "" && r.n == (if s[0] == '-' then MinInt64 else MaxInt64)
  {
    if s == "" then Parsed(0, ErrSyntax)
    else
      var neg := s[0] == '-';
      var digits := if s[0] == '+' || s[0] == '-' then s[1..] else s;
      var u := ParseUint(digits);
      if u.err == ErrSyntax then Parsed(0, ErrSyntax)
      else if !neg && u.n >= MaxInt64 + 1 then Parsed(MaxInt64, ErrRange)
      else if neg && u.n > MaxInt64 + 1 then Parsed(MinInt64, ErrRange)
      else Parsed(if neg then -u.n else u.n, u.err)
  }

  lemma {:induction false} FormatNatDigits(n: nat)
    ensures AllDigits(FormatNat(n, 10)) && DecimalValue(FormatNat(n, 10)) == n
    decreases n
  {
    var r := FormatNat(n, 10);
    if n >= 10 {
      FormatNatDigits(n / 10);
      assert r[..|r| - 1] == FormatNat(n / 10, 10);
    }
  }

  lemma {:induction false} DecimalValueFront(s: string)
    requires AllDigits(s) && |s| > 0
    ensures DecimalValue(s) == (s[0] as int - '0' as int) * Pow10(|s| - 1) + DecimalValue(s[1..])
    decreases |s|
  {
    if |s| > 1 {
      var n := |s|;
      var init := s[..n - 1];
      var d := s[0] as int - '0' as int;
      var e := s[n - 1] as int - '0' as int;
      DecimalValueFront(init);
      assert init[1..] == s[1..][..n - 2];
      var x := DecimalValue(init[1..]);
      var p := Pow10(n - 2);
      assert DecimalValue(s[1..]) == x * 10 + e;
      assert DecimalValue(init) == d * p + x;
      assert DecimalValue(s) == (d * p + x) * 10 + e;
      Distribute(d, p, x, e);
    }
  }

  lemma Distribute(d: int, p: int, x: int, e: int)
    ensures (d * p + x) * 10 + e == d * (10 * p) + (x * 10 + e)
  {
  }

  lemma Shift(acc: int, d: int, p: int, v: int)
    requires p >= 1 && acc >= 0 && 0 <= d && v >= 0
    ensures acc * (10 * p) + (d * p + v) == (acc * 10 + d) * p + v
    ensures acc * 10 + d <= (acc * 10 + d) * p + v
  {
  }

  lemma {:induction false} ParseDigitsValue(s: string, acc: nat)
    requires AllDigits(s) && acc <= MaxUint64
    requires acc * Pow10(|s|) + DecimalValue(s) <= MaxUint64
    ensures ParseDigits(s, acc) == Parsed(acc * Pow10(|s|) + DecimalValue(s), NoError)
    decreases |s|
  {
    if s != [] {
      var d := s[0] as int - '0' as int;
      var p := Pow10(|s| - 1);
      var v := DecimalValue(s[1..]);
      DecimalValueFront(s);
      PowPositive(|s| - 1);
      assert Pow10(|s|) == 10 * p;
      Shift(acc, d, p, v);
      assert acc * Pow10(|s|) + DecimalValue(s) == (acc * 10 + d) * p + v;
      assert acc * 10 + d <= MaxUint64;
      assert acc < MaxUint64 / 10 + 1;
      ParseDigitsValue(s[1..], acc * 10 + d);
    }
  }

  lemma {:induction false} PowPositive(k: nat)
    ensures Pow10(k) >= 1
  {
    if k > 0 { PowPositive(k - 1); }
  }

  /** ParseUint reads back what FormatUint wrote, for every uint64. */
  lemma ParseUintFormat(n: nat)
    requires n <= MaxUint64
    ensures ParseUint(FormatNat(n, 10)) == Parsed(n, NoError)
  {
    FormatNatDigits(n);
    ParseDigitsValue(FormatNat(n, 10), 0);
  }

  /** ParseInt reads back what FormatInt wrote, for every int64. */
  lemma ParseIntFormat(n: int)
    requires MinInt64 <= n <= MaxInt64
    ensures ParseInt(FormatInt(n, 10)) == Parsed(n, NoError)
  {
    var digits := FormatNat(if n < 0 then -n else n, 10);
    ParseUintFormat(if n < 0 then -n else n);
    if n < 0 {
      assert ("-" + digits)[1..] == digits;
    } else {
      assert digits[0] != '-' && digits[0] != '+' by { FormatNatDigits(n); }
    }
  }

  // ------------------------------------------------------------- %v of floats

  /** The number of '0' bytes at the front of `s`. */
  function LeadingZeros(s: string): (z: nat)
    ensures z <= |s|
    ensures forall k :: 0 <= k < z ==> s[k] == '0'
    ensures z < |s| ==> s[z] != '0'
    decreases |s|
  {
    if s != [] && s[0] == '0' then 1 + LeadingZeros(s[1..]) else 0
  }

  /** `s` without the '0' bytes at its end. */
  function TrimZeros(s: string): (r: string)
    ensures |r| <= |s| && r == s[..|r|]
    ensures forall k :: |r| <= k < |s| ==> s[k] == '0'
    ensures r == [] || r[|r| - 1] != '0'
    ensures s != [] && s[0] != '0' ==> |r| >= 1
    decreases |s|
  {
    if s != [] && s[|s| - 1] == '0' then TrimZeros(s[..|s| - 1]) else s
  }

  /** The text strconv.FormatFloat writes with 'f' and the shortest precision: "-"?
      digits ("." digits)?. The other texts it writes, "NaN", "+Inf" and "-Inf", are the
      same in every format. */
  predicate PlainDecimal(t: string)
  {
    var u := if t != "" && t[0] == '-' then t[1..] else t;
    var parts := Split(u, ".");
    |parts| <= 2 && parts[0] != "" && AllDigits(parts[0])
    && (|parts| == 2 ==> parts[1] != "" && AllDigits(parts[1]))
  }

  /** fmt's %v of a float, which is 'g' with the shortest precision, given the shortest
      'f' text of the same value. The texts that are not plain decimals are unchanged. */
  function FormatG(t: string): string
  {
    if !PlainDecimal(t) then t
    else
      var neg := t[0] == '-';
      var parts := Split(if neg then t[1..] else t, ".");
      FormatDigits(t, neg, parts[0], if |parts| == 2 then parts[1] else "")
  }

  /** The 'g' text of the plain decimal `t` whose integer digits are `ip` and whose
      fraction digits are `fp`. With the first significant digit at decimal exponent
      `exp`, it is `t` itself when -4 <= exp < 6 (and for zero), and the exponent form
      otherwise. */
  function FormatDigits(t: string, neg: bool, ip: string, fp: string): string
  {
    var ds := ip + fp;
    var z := LeadingZeros(ds);
    var exp := |ip| - z - 1;
    if z == |ds| || -4 <= exp < 6 then t else ExpForm(neg, TrimZeros(ds[z..]), exp)
  }

  /** The significant digits `d` as d[.ddd], then e, the sign of the exponent and at
      least two of its digits. */
  function ExpForm(neg: bool, d: string, exp: int): string
    requires d != []
  {
    (if neg then "-" else "") + [d[0]] + (if |d| > 1 then "." + d[1..] else "")
    + "e" + (if exp < 0 then "-" else "+") + (if -10 < exp < 10 then "0" else "")
    + FormatNat(if exp < 0 then -exp else exp, 10)
  }

  /** `k` '0' bytes. */
  function Zeros(k: nat): (r: string)
    ensures |r| == k && forall i :: 0 <= i < k ==> r[i] == '0'
  {
    seq(k, _ => '0')
  }

  lemma {:induction false} LeadingZerosOf(k: nat, rest: string)
    requires rest != [] && rest[0] != '0'
    ensures LeadingZeros(Zeros(k) + rest) == k
    decreases k
  {
    if k > 0 {
      assert (Zeros(k) + rest)[1..] == Zeros(k - 1) + rest;
      LeadingZerosOf(k - 1, rest);
    }
  }

  lemma {:induction false} TrimZerosOf(k: nat)
    ensures TrimZeros("1" + Zeros(k)) == "1"
    decreases k
  {
    if k > 0 {
      assert ("1" + Zeros(k))[..k] == "1" + Zeros(k - 1);
      TrimZerosOf(k - 1);
    }
  }

  lemma DigitsHaveNoDot(s: string)
    requires AllDigits(s)
    ensures Split(s, ".") == [s]
  {
    ContainsChar(s, '.');
    assert '.' !in s;
    SplitFree(s, ".");
  }

  /** The %v text of an unsigned integral 'f' text. */
  lemma FormatGInteger(t: string)
    requires t != "" && AllDigits(t)
    ensures FormatG(t) == FormatDigits(t, false, t, "")
  {
    assert IsDigit(t[0]);
    DigitsHaveNoDot(t);
  }

  /** The %v text of an unsigned 'f' text with a fraction. */
  lemma FormatGFraction(ip: string, fp: string)
    requires ip != "" && AllDigits(ip) && fp != "" && AllDigits(fp)
    ensures FormatG(ip + "." + fp) == FormatDigits(ip + "." + fp, false, ip, fp)
  {
    var t := ip + "." + fp;
    assert t[0] == ip[0] && IsDigit(ip[0]);
    ContainsChar(ip, '.');
    assert '.' !in ip;
    SplitAtFirst(ip, ".", fp);
    DigitsHaveNoDot(fp);
  }

  /** A single significant digit in the exponent form, for a positive exponent. */
  lemma ExpFormUp(e: nat)
    ensures ExpForm(false, "1", e) == "1e+" + (if e < 10 then "0" else "") + FormatNat(e, 10)
  {
    assert (if false then "-" else "") + ['1'] == "1";
  }

  /** A single significant digit in the exponent form, for a negative exponent. */
  lemma ExpFormDown(e: nat)
    requires e >= 1
    ensures ExpForm(false, "1", -(e as int)) == "1e-" + (if e < 10 then "0" else "") + FormatNat(e, 10)
  {
    assert (if false then "-" else "") + ['1'] == "1";
    assert -(-(e as int)) == e;
  }

  /** The digits of 10^k: no leading zero, one significant digit, exponent k. */
  lemma PowerDigits(k: nat)
    requires k >= 6
    ensures FormatDigits("1" + Zeros(k), false, "1" + Zeros(k), "") == ExpForm(false, "1", k)
  {
    var t := "1" + Zeros(k);
    assert t + "" == t && t[0..] == t;
    assert LeadingZeros(t) == 0;
    TrimZerosOf(k);
  }

  /** 10^k for k >= 6 is printed as 1e+k, the exponent in at least two digits. */
  lemma FormatGPowerOfTen(k: nat)
    requires k >= 6
    ensures FormatG("1" + Zeros(k)) == "1e+" + (if k < 10 then "0" else "") + FormatNat(k, 10)
  {
    var t := "1" + Zeros(k);
    assert AllDigits(t);
    FormatGInteger(t);
    PowerDigits(k);
    ExpFormUp(k);
  }

  /** 10^-k for k >= 5 is printed as 1e-k, the exponent in at least two digits. */
  lemma FormatGSmallPowerOfTen(k: nat)
    requires k >= 5
    ensures FormatG("0." + Zeros(k - 1) + "1") == "1e-" + (if k < 10 then "0" else "") + FormatNat(k, 10)
  {
    var fp := Zeros(k - 1) + "1";
    assert "0." + Zeros(k - 1) + "1" == "0" + "." + fp;
    assert AllDigits(fp);
    FormatGFraction("0", fp);
    SmallDigits("0." + fp, k);
    ExpFormDown(k);
  }

  lemma SmallDigits(t: string, k: nat)
    requires k >= 5
    ensures FormatDigits(t, false, "0", Zeros(k - 1) + "1") == ExpForm(false, "1", -(k as int))
  {
    var ds := "0" + (Zeros(k - 1) + "1");
    assert ds == Zeros(k) + "1";
    LeadingZerosOf(k, "1");
    assert ds[k..] == "1";
  }

  /** A million is printed as 1e+06. */
  lemma FormatGMillion()
    ensures FormatG("1000000") == "1e+06"
  {
    MillionText();
    FormatGPowerOfTen(6);
    ExponentText(6);
  }

  /** A hundred thousandth is printed as 1e-05. */
  lemma FormatGHundredThousandth()
    ensures FormatG("0.00001") == "1e-05"
  {
    HundredThousandthText();
    FormatGSmallPowerOfTen(5);
    ExponentText(5);
  }

  lemma MillionText()
    ensures "1" + Zeros(6) == "1000000"
  {
  }

  lemma HundredThousandthText()
    ensures "0." + Zeros(4) + "1" == "0.00001"
  {
  }

  /** The exponent of a one-digit power of ten, padded to two digits. */
  lemma ExponentText(k: nat)
    requires k < 10
    ensures (if k < 10 then "0" else "") + FormatNat(k, 10) == ['0', DigitChar(k)]
  {
  }

  /** An integral float below a million that fmt prints: its %v text is its 'f' text. */
  lemma FormatGSmallIntegral(n: nat)
    requires n < 1000000
    ensures FormatG(FormatNat(n, 10)) == FormatNat(n, 10)
  {
    var t := FormatNat(n, 10);
    FormatNatDigits(n);
    FormatNatShort(n, 6);
    DigitsHaveNoDot(t);
  }

  /** A number below 10^k has at most k digits. */
  lemma {:induction false} FormatNatShort(n: nat, k: nat)
    requires k >= 1 && n < Pow10(k)
    ensures |FormatNat(n, 10)| <= k
    decreases n
  {
    if n >= 10 {
      assert Pow10(1) == 10;
      FormatNatShort(n / 10, k - 1);
    }
  }

  // ------------------------------------------------------------------- UTF-8

  /** The bytes of U+FFFD, which encoding/json writes for every byte that does not begin a
      valid UTF-8 sequence. */
  const Replacement: string := [0xEF as char, 0xBF as char, 0xBD as char]

  predicate ByteIn(c: char, lo: int, hi: int)
  {
    lo <= c as int <= hi
  }

  /** The width of the rune utf8.DecodeRuneInString reads at the start of `s`, or 0 where
      it reports an error: an empty text, a byte that cannot begin a rune, a sequence cut
      short, or a continuation byte out of range (which also rules out overlong forms and
      surrogates). */
  function RuneLen(s: string): (n: nat)
    ensures n <= |s| && n <= 4
  {
    if s == [] then 0
    else
      var b := s[0] as int;
      if b < 0x80 then 1
      else
        var size := if 0xC2 <= b <= 0xDF then 2 else if 0xE0 <= b <= 0xEF then 3
                    else if 0xF0 <= b <= 0xF4 then 4 else 0;
        var lo := if b == 0xE0 then 0xA0 else if b == 0xF0 then 0x90 else 0x80;
        var hi := if b == 0xED then 0x9F else if b == 0xF4 then 0x8F else 0xBF;
        if size == 0 || |s| < size then 0
        else if !ByteIn(s[1], lo, hi) then 0
        else if size >= 3 && !ByteIn(s[2], 0x80, 0xBF) then 0
        else if size == 4 && !ByteIn(s[3], 0x80, 0xBF) then 0
        else size
  }

  /** utf8.ValidString: the text is a sequence of whole runes. */
  predicate ValidUtf8(s: string)
    decreases |s|
  {
    s == [] || (RuneLen(s) > 0 && ValidUtf8(s[RuneLen(s)..]))
  }

  /** The text of a Go string after json.Marshal and json.Unmarshal: every byte at which
      no rune can be read becomes U+FFFD, and decoding undoes every escape. */
  function Coerce(s: string): (r: string)
    decreases |s|
  {
    if s == [] then []
    else if RuneLen(s) == 0 then Replacement + Coerce(s[1..])
    else s[..RuneLen(s)] + Coerce(s[RuneLen(s)..])
  }

  /** Valid UTF-8 comes through JSON unchanged. */
  lemma {:induction false} CoerceValid(s: string)
    requires ValidUtf8(s)
    ensures Coerce(s) == s
    decreases |s|
  {
    if s != [] {
      var n := RuneLen(s);
      CoerceValid(s[n..]);
      assert s[..n] + s[n..] == s;
    }
  }

  /** The width of the first rune depends only on the bytes it spans. */
  lemma RunePrefix(s: string, t: string)
    requires RuneLen(s) > 0 && |t| >= RuneLen(s) && t[..RuneLen(s)] == s[..RuneLen(s)]
    ensures RuneLen(t) == RuneLen(s)
  {
    var n := RuneLen(s);
    assert t[0] == s[0];
    if n >= 2 { assert t[1] == s[1]; }
    if n >= 3 { assert t[2] == s[2]; }
    if n == 4 { assert t[3] == s[3]; }
  }

  /** A rune followed by valid text is valid text. */
  lemma RuneThenValid(s: string, rest: string)
    requires RuneLen(s) == |s| > 0 && ValidUtf8(rest)
    ensures ValidUtf8(s + rest)
  {
    RunePrefix(s, s + rest);
    assert (s + rest)[|s|..] == rest;
  }

  /** What JSON gives back is always valid UTF-8. */
  lemma {:induction false} CoerceIsValid(s: string)
    ensures ValidUtf8(Coerce(s))
    decreases |s|
  {
    if s != [] {
      var n := RuneLen(s);
      if n == 0 {
        CoerceIsValid(s[1..]);
        assert RuneLen(Replacement) == 3;
        RuneThenValid(Replacement, Coerce(s[1..]));
      } else {
        CoerceIsValid(s[n..]);
        RunePrefix(s, s[..n]);
        RuneThenValid(s[..n], Coerce(s[n..]));
      }
    }
  }

  /** Text that is not valid UTF-8 is changed by JSON. */
  lemma CoerceChanges(s: string)
    requires !ValidUtf8(s)
    ensures s != "" && Coerce(s) != s
  {
    CoerceIsValid(s);
  }

  /** JSON never turns a text into the empty text. */
  lemma CoerceNonEmpty(s: string)
    requires s != ""
    ensures Coerce(s) != ""
  {
    if RuneLen(s) == 0 {
      assert Coerce(s)[..3] == Replacement;
    } else {
      assert Coerce(s)[..RuneLen(s)] == s[..RuneLen(s)];
    }
  }

  /** ASCII text is valid UTF-8. */
  lemma {:induction false} AsciiValid(s: string)
    requires forall k :: 0 <= k < |s| ==> s[k] as int < 0x80
    ensures ValidUtf8(s)
    decreases |s|
  {
    if s != [] {
      AsciiValid(s[1..]);
    }
  }

  /** A lone byte of 0x80 or above is not valid UTF-8, and JSON replaces it by U+FFFD. */
  lemma LoneHighByte(c: char)
    requires c as int >= 0x80
    ensures !ValidUtf8([c]) && Coerce([c]) == Replacement
  {
    assert RuneLen([c]) == 0;
    assert [c][1..] == [];
  }

  // ---------------------------------------------------------------- ordering

  /** Go's `<=` on strings: byte by byte, a proper prefix first. */
  predicate NotAfter(a: string, b: string)
    decreases |a|
  {
    a == [] || (b != [] && (a[0] < b[0] || (a[0] == b[0] && NotAfter(a[1..], b[1..]))))
  }

  lemma {:induction false} NotAfterReflexive(a: string)
    ensures NotAfter(a, a)
    decreases |a|
  {
    if a != [] {
      NotAfterReflexive(a[1..]);
    }
  }

  lemma {:induction false} NotAfterTotal(a: string, b: string)
    ensures NotAfter(a, b) || NotAfter(b, a)
    decreases |a|
  {
    if a != [] && b != [] && a[0] == b[0] {
      NotAfterTotal(a[1..], b[1..]);
    }
  }

  lemma {:induction false} NotAfterAntisymmetric(a: string, b: string)
    requires NotAfter(a, b) && NotAfter(b, a)
    ensures a == b
    decreases |a|
  {
    if a != [] {
      NotAfterAntisymmetric(a[1..], b[1..]);
      assert a == [a[0]] + a[1..] && b == [b[0]] + b[1..];
    }
  }

  lemma {:induction false} NotAfterTransitive(a: string, b: string, c: string)
    requires NotAfter(a, b) && NotAfter(b, c)
    ensures NotAfter(a, c)
    decreases |a|
  {
    if a != [] && a[0] == b[0] && b[0] == c[0] {
      NotAfterTransitive(a[1..], b[1..], c[1..]);
    }
  }

  /** `m` is an element of `keys` that no element comes after. */
  predicate IsGreatest(m: string, keys: set<string>)
  {
    m in keys && forall x :: x in keys ==> NotAfter(x, m)
  }

  /** Every finite set of strings has a greatest element. */
  lemma {:induction false} GreatestExists(keys: set<string>)
    requires keys != {}
    ensures exists m :: IsGreatest(m, keys)
    decreases |keys|
  {
    var x :| x in keys;
    if keys == {x} {
      NotAfterReflexive(x);
      assert IsGreatest(x, keys);
    } else {
      var rest := keys - {x};
      GreatestExists(rest);
      var m :| IsGreatest(m, rest);
      GreatestStep(x, rest, m);
      assert rest + {x} == keys;
    }
  }

  /** Adding one string to a set: the greater of it and the old greatest is greatest. */
  lemma GreatestStep(x: string, rest: set<string>, m: string)
    requires IsGreatest(m, rest)
    ensures IsGreatest(if NotAfter(x, m) then m else x, rest + {x})
  {
    NotAfterTotal(x, m);
    var g := if NotAfter(x, m) then m else x;
    forall y | y in rest + {x}
      ensures NotAfter(y, g)
    {
      if y == x {
        if g == x { NotAfterReflexive(x); }
      } else if g == x {
        NotAfterTransitive(y, m, x);
      }
    }
  }

  /** The last of a set of strings in Go's sort order. */
  function Greatest(keys: set<string>): (r: string)
    requires keys != {}
    ensures r in keys && forall x :: x in keys ==> NotAfter(x, r)
  {
    GreatestExists(keys);
    NotAfterOrder();
    var r :| IsGreatest(r, keys);
    r
  }

  lemma NotAfterOrder()
    ensures forall a, b :: NotAfter(a, b) && NotAfter(b, a) ==> a == b
  {
    forall a, b | NotAfter(a, b) && NotAfter(b, a)
      ensures a == b
    {
      NotAfterAntisymmetric(a, b);
    }
  }

  // ----------------------------------------------------------------- base64

  /** The character for a 6-bit group in the standard base64 alphabet. */
  function Base64Char(x: int): (c: char)
    requires 0 <= x < 64
    ensures c as int < 0x80
  {
    if x < 26 then ('A' as int + x) as char
    else if x < 52 then ('a' as int + x - 26) as char
    else if x < 62 then ('0' as int + x - 52) as char
    else if x == 62 then '+' else '/'
  }

  /** The second six bits of three bytes: the low two bits of `a`, the high four of `b`. */
  function Second(a: byte, b: byte): (x: int)
    ensures 0 <= x < 64
  {
    a % 4 * 16 + b / 16
  }

  /** The third six bits of three bytes: the low four bits of `b`, the high two of `c`. */
  function Third(b: byte, c: byte): (x: int)
    ensures 0 <= x < 64
  {
    b % 16 * 4 + c / 64
  }

  /** base64.StdEncoding.EncodeToString: four characters per three bytes, '=' padding. */
  function Base64(d: seq<byte>): (r: string)
    ensures |r| == (|d| + 2) / 3 * 4
    ensures forall k :: 0 <= k < |r| ==> r[k] as int < 0x80
    decreases |d|
  {
    if |d| == 0 then ""
    else if |d| == 1 then [Base64Char(d[0] / 4), Base64Char(Second(d[0], 0)), '=', '=']
    else if |d| == 2 then
      [Base64Char(d[0] / 4), Base64Char(Second(d[0], d[1])), Base64Char(Third(d[1], 0)), '=']
    else
      [Base64Char(d[0] / 4), Base64Char(Second(d[0], d[1])),
       Base64Char(Third(d[1], d[2])), Base64Char(d[2] % 64)] + Base64(d[3..])
  }
}
