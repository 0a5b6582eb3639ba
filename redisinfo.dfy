/** The parsing of the Redis INFO reply in redis.go: splitInfo turns the reply into a map
    from each line's key to its value, and parseMemoryInfo looks for the used_memory line.
    As written, parseMemoryInfo ranges over the map's values, which have lost their key;
    the corrected version ranges over the reply's lines. */
module RedisInfo {
  import opened GoText

  /** The line separator of the INFO reply. */
  const CRLF: string := "\r\n"

  /** The prefix of the line giving the memory in use. */
  const UsedMemory: string := "used_memory:"

  /** The key of a line: the text before its first ":". */
  function Key(line: string): (r: string)
    requires ':' in line
    ensures ':' !in r
  {
    Cut(line, ':').0
  }

  /** The value of a line: the text after its first ":". */
  function Val(line: string): (r: string)
    requires ':' in line
    ensures Key(line) + ":" + r == line
  {
    Cut(line, ':').1
  }

  /** The line has the key. */
  predicate HasKey(line: string, key: string)
  {
    ':' in line && Key(line) == key
  }

  /** The map splitInfo builds from the lines seen so far: each line holding ":" sets its
      key to its value, a later line overwriting an earlier one. */
  function Info(lines: seq<string>): map<string, string>
    decreases |lines|
  {
    if lines == [] then map[]
    else
      var m := Info(lines[..|lines| - 1]);
      var line := lines[|lines| - 1];
      if ':' in line then m[Key(line) := Val(line)] else m
  }

  /** splitInfo. */
  method SplitInfo(response: string) returns (info: map<string, string>)
    ensures info == Info(Split(response, CRLF))
  {
    info := map[];
    var lines := Split(response, CRLF);
    var i := 0;
    while i < |lines|
      invariant 0 <= i <= |lines|
      invariant info == Info(lines[..i])
    {
      var line := lines[i];
      assert lines[..i + 1][..i] == lines[..i];
      ContainsChar(line, ':');
      if Contains(line, ":") {
        var parts := Cut(line, ':');
        info := info[parts.0 := parts.1];
      }
      i := i + 1;
    }
    assert lines[..i] == lines;
  }

  /** A line without ":" changes nothing; a line with one sets its key to its value. */
  lemma InfoStep(lines: seq<string>, line: string)
    ensures ':' !in line ==> Info(lines + [line]) == Info(lines)
    ensures ':' in line ==> Info(lines + [line]) == Info(lines)[Key(line) := Val(line)]
  {
    assert (lines + [line])[..|lines|] == lines;
  }

  /** No key holds ":", and a key is present exactly when some line has it. */
  lemma {:induction false} InfoKeys(lines: seq<string>, key: string)
    ensures key in Info(lines) ==> ':' !in key
    ensures key in Info(lines) <==> exists i :: 0 <= i < |lines| && HasKey(lines[i], key)
    decreases |lines|
  {
    if lines != [] {
      var init := lines[..|lines| - 1];
      InfoKeys(init, key);
      if key in Info(lines) && !HasKey(lines[|lines| - 1], key) {
        var i :| 0 <= i < |init| && HasKey(init[i], key);
        assert lines[i] == init[i];
      }
      if exists i :: 0 <= i < |lines| && HasKey(lines[i], key) {
        var i :| 0 <= i < |lines| && HasKey(lines[i], key);
        if i < |init| {
          assert init[i] == lines[i];
        }
      }
    }
  }

  /** A key given by one line only maps to that line's value. */
  lemma {:induction false} InfoValue(lines: seq<string>, key: string, i: int)
    requires 0 <= i < |lines| && HasKey(lines[i], key)
    requires forall j :: 0 <= j < |lines| && HasKey(lines[j], key) ==> j == i
    ensures key in Info(lines) && Info(lines)[key] == Val(lines[i])
    decreases |lines|
  {
    var init := lines[..|lines| - 1];
    if i < |lines| - 1 {
      assert init[i] == lines[i];
      forall j | 0 <= j < |init| && HasKey(init[j], key) ensures j == i {
        assert lines[j] == init[j];
      }
      InfoValue(init, key, i);
    }
  }

  /** isMemoryLine. */
  predicate IsMemoryLine(line: string)
  {
    |line| > 12 && line[..12] == UsedMemory
  }

  /** A memory line is exactly a line with the key used_memory and a value that is not
      empty; the text after the prefix is that value. */
  lemma MemoryLineIsKey(line: string)
    ensures IsMemoryLine(line) <==> HasKey(line, "used_memory") && |Val(line)| > 0
    ensures IsMemoryLine(line) ==> line[12..] == Val(line)
  {
    if IsMemoryLine(line) {
      assert "used_memory" + [':'] + line[12..] == line;
      CutUnique(line, ':', "used_memory", line[12..]);
    }
    if HasKey(line, "used_memory") {
      assert line == "used_memory" + ":" + Val(line);
      assert line[..12] == UsedMemory;
    }
  }

  /** The text after the prefix of the first memory line, or "0". */
  function FirstMemory(lines: seq<string>): (r: string)
    ensures r == "0" || exists i :: 0 <= i < |lines| && IsMemoryLine(lines[i]) && r == lines[i][12..]
    ensures (forall i :: 0 <= i < |lines| ==> !IsMemoryLine(lines[i])) ==> r == "0"
    decreases |lines|
  {
    if lines == [] then "0"
    else if IsMemoryLine(lines[0]) then lines[0][12..]
    else
      var r := FirstMemory(lines[1..]);
      assert forall i :: 0 < i < |lines| ==> lines[i] == lines[1..][i - 1];
      r
  }

  /** The first memory line decides. */
  lemma {:induction false} FirstMemoryAt(lines: seq<string>, i: int)
    requires 0 <= i < |lines| && IsMemoryLine(lines[i])
    requires forall j :: 0 <= j < i ==> !IsMemoryLine(lines[j])
    ensures FirstMemory(lines) == lines[i][12..]
    decreases i
  {
    if i > 0 {
      forall j | 0 <= j < i - 1 ensures !IsMemoryLine(lines[1..][j]) {
        assert lines[1..][j] == lines[j + 1];
      }
      FirstMemoryAt(lines[1..], i - 1);
    }
  }

  /** The values of the map in the order range visits its keys. */
  function ValuesIn(info: map<string, string>, order: seq<string>): (r: seq<string>)
    requires forall i :: 0 <= i < |order| ==> order[i] in info
    ensures |r| == |order| && forall i :: 0 <= i < |order| ==> r[i] == info[order[i]]
  {
    seq(|order|, i requires 0 <= i < |order| => info[order[i]])
  }

  /** An order of iteration over a map: each key once. */
  predicate IsOrder(info: map<string, string>, order: seq<string>)
  {
    && (forall i :: 0 <= i < |order| ==> order[i] in info)
    && (forall k :: k in info ==> k in order)
    && (forall i, j :: 0 <= i < j < |order| ==> order[i] != order[j])
  }

  /** parseMemoryInfo as written: ranging over splitInfo's map gives its values, in the
      order the runtime picks, and the first value that is itself a memory line is
      returned without its prefix. */
  method ParseMemoryInfo(info: string, order: seq<string>) returns (r: string)
    requires IsOrder(Info(Split(info, CRLF)), order)
    ensures r == FirstMemory(ValuesIn(Info(Split(info, CRLF)), order))
  {
    var m := SplitInfo(info);
    var values := ValuesIn(m, order);
    var i := 0;
    while i < |order|
      invariant 0 <= i <= |order|
      invariant FirstMemory(values) == FirstMemory(values[i..])
    {
      var line := m[order[i]];
      assert values[i..][0] == line && values[i..][1..] == values[i + 1..];
      if IsMemoryLine(line) {
        return line[|UsedMemory|..];
      }
      i := i + 1;
    }
    return "0";
  }

  /** As written, a reply whose values hold no ":" (the INFO format, where each line is
      key:value) gives "0" whatever memory it reports. */
  lemma AsWrittenIgnoresReply(info: map<string, string>, order: seq<string>)
    requires IsOrder(info, order)
    requires forall k :: k in info ==> ':' !in info[k]
    ensures FirstMemory(ValuesIn(info, order)) == "0"
  {
    var values := ValuesIn(info, order);
    forall i | 0 <= i < |values| ensures !IsMemoryLine(values[i]) {
      if |values[i]| > 12 {
        assert values[i][11] != ':';
        assert values[i][..12][11] == values[i][11];
      }
    }
  }

  /** A reply holding only the line used_memory:v has the lines "used_memory:v" and "",
      and splitInfo maps used_memory to v. */
  lemma ReplyLines(v: string)
    requires '\r' !in v && ':' !in v
    ensures Split(UsedMemory + v + CRLF, CRLF) == [UsedMemory + v, ""]
    ensures Info(Split(UsedMemory + v + CRLF, CRLF)) == map["used_memory" := v]
  {
    ReplySplit(v);
    UsedMemoryCut(v);
    var line := UsedMemory + v;
    assert ':' in line by { assert line[11] == ':'; }
    InfoOfOneLine(line);
  }

  lemma ReplySplit(v: string)
    requires '\r' !in v
    ensures Split(UsedMemory + v + CRLF, CRLF) == [UsedMemory + v, ""]
  {
    var line := UsedMemory + v;
    assert '\r' !in line;
    assert line + CRLF == line + CRLF + "";
    SplitAtFirst(line, CRLF, "");
    assert Split("", CRLF) == [""];
  }

  lemma UsedMemoryCut(v: string)
    requires ':' !in v
    ensures Cut(UsedMemory + v, ':') == ("used_memory", v)
  {
    var line := UsedMemory + v;
    assert "used_memory" + [':'] + v == line;
    CutUnique(line, ':', "used_memory", v);
  }

  /** A line holding ":" followed by an empty line gives one key. */
  lemma InfoOfOneLine(line: string)
    requires ':' in line
    ensures Info([line, ""]) == map[Key(line) := Val(line)]
  {
    InfoStep([], line);
    InfoStep([line], "");
    assert [] + [line] == [line] && [line] + [""] == [line, ""];
  }

  /** As written, the reply used_memory:v (for instance used_memory:1024) gives "0". */
  lemma AsWrittenStandardReply(v: string, order: seq<string>)
    requires '\r' !in v && ':' !in v
    requires IsOrder(Info(Split(UsedMemory + v + CRLF, CRLF)), order)
    ensures Info(Split(UsedMemory + v + CRLF, CRLF)) == map["used_memory" := v]
    ensures FirstMemory(ValuesIn(Info(Split(UsedMemory + v + CRLF, CRLF)), order)) == "0"
  {
    ReplyLines(v);
    AsWrittenIgnoresReply(Info(Split(UsedMemory + v + CRLF, CRLF)), order);
  }

  /** As written, the result is not always "0" either: a line k:used_memory:v, whose value
      is a memory line, reports v. */
  lemma AsWrittenReportsValueLine(k: string, v: string, order: seq<string>)
    requires ':' !in k && '\r' !in k && '\r' !in v && v != ""
    requires IsOrder(Info(Split(k + ":" + UsedMemory + v, CRLF)), order)
    ensures FirstMemory(ValuesIn(Info(Split(k + ":" + UsedMemory + v, CRLF)), order)) == v
  {
    ValueLineInfo(k, v);
    assert k in order;
    var m := map[k := UsedMemory + v];
    assert ValuesIn(m, order)[0] == UsedMemory + v;
    assert IsMemoryLine(UsedMemory + v);
    FirstMemoryAt(ValuesIn(m, order), 0);
  }

  /** The reply k:used_memory:v is one line, mapping k to used_memory:v. */
  lemma ValueLineInfo(k: string, v: string)
    requires ':' !in k && '\r' !in k && '\r' !in v
    ensures Info(Split(k + ":" + UsedMemory + v, CRLF)) == map[k := UsedMemory + v]
  {
    var line := k + ":" + UsedMemory + v;
    NoCarriageReturn(line);
    assert k + [':'] + (UsedMemory + v) == line;
    CutUnique(line, ':', k, UsedMemory + v);
    InfoStep([], line);
    assert [] + [line] == [line];
  }

  /** A text without "\r" is one line. */
  lemma NoCarriageReturn(s: string)
    requires '\r' !in s
    ensures Split(s, CRLF) == [s]
  {
    forall i | 0 <= i ensures !At(s, CRLF, i) {
      if i + 2 <= |s| {
        assert s[i..i + 2][0] == s[i];
      }
    }
    SplitFree(s, CRLF);
  }

  // -------------------------------------------------------------- corrected

  /** parseMemoryInfo as evidently intended: the first line of the reply that is a memory
      line gives the memory in use. */
  method ParseMemoryInfoFixed(info: string) returns (r: string)
    ensures r == FirstMemory(Split(info, CRLF))
  {
    var lines := Split(info, CRLF);
    var i := 0;
    while i < |lines|
      invariant 0 <= i <= |lines|
      invariant FirstMemory(lines) == FirstMemory(lines[i..])
    {
      assert lines[i..][0] == lines[i] && lines[i..][1..] == lines[i + 1..];
      if IsMemoryLine(lines[i]) {
        return lines[i][|UsedMemory|..];
      }
      i := i + 1;
    }
    return "0";
  }

  /** The corrected parse reports the used_memory value of splitInfo's map whenever the
      reply gives that key once: the value when it is not empty, else "0"; and "0" when the
      key is absent. */
  lemma FixedReportsUsedMemory(lines: seq<string>)
    requires forall i, j ::
      0 <= i < |lines| && 0 <= j < |lines| && HasKey(lines[i], "used_memory") && HasKey(lines[j], "used_memory")
      ==> i == j
    ensures "used_memory" !in Info(lines) ==> FirstMemory(lines) == "0"
    ensures "used_memory" in Info(lines) ==>
      FirstMemory(lines) == (if Info(lines)["used_memory"] != "" then Info(lines)["used_memory"] else "0")
  {
    InfoKeys(lines, "used_memory");
    forall i | 0 <= i < |lines| ensures IsMemoryLine(lines[i]) <==> HasKey(lines[i], "used_memory") && |Val(lines[i])| > 0 {
      MemoryLineIsKey(lines[i]);
    }
    if "used_memory" in Info(lines) {
      var i :| 0 <= i < |lines| && HasKey(lines[i], "used_memory");
      InfoValue(lines, "used_memory", i);
      if Val(lines[i]) != "" {
        MemoryLineIsKey(lines[i]);
        FirstMemoryAt(lines, i);
      }
    }
  }

  /** The corrected parse of the reply used_memory:v (for instance used_memory:1024)
      gives v. */
  lemma FixedStandardReply(v: string)
    requires '\r' !in v && ':' !in v && v != ""
    ensures FirstMemory(Split(UsedMemory + v + CRLF, CRLF)) == v
  {
    ReplyLines(v);
    var lines := [UsedMemory + v, ""];
    assert IsMemoryLine(lines[0]);
    FirstMemoryAt(lines, 0);
  }
}
