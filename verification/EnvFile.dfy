/** The deploy environment file: the writer's quoting, the reader's unquoting, and the round trip between them. */
module EnvFile {
  import opened Wrappers
  import opened Text
  import opened Sorting

  // ---------------------------------------------------------------- writing a line

  /** `s.replace(c, replacement)` for a single character. */
  function Replace(s: string, c: char, replacement: string): string {
    if s == "" then "" else (if s[0] == c then replacement else [s[0]]) + Replace(s[1..], c, replacement)
  }

  function FormatEnvLine(key: string, val: string): string {
    var oneLine := Replace(Replace(val, '\r', ""), '\n', "");
    var escaped := Replace(Replace(oneLine, '\\', "\\\\"), '"', "\\\"");
    key + "=\"" + escaped + "\"\n"
  }

  /** A backslash before every backslash and double quote. */
  function Escape(s: string): string {
    if s == "" then "" else (if s[0] == '\\' || s[0] == '"' then ['\\', s[0]] else [s[0]]) + Escape(s[1..])
  }

  lemma {:induction false} ReplaceConcat(s: string, t: string, c: char, replacement: string)
    ensures Replace(s + t, c, replacement) == Replace(s, c, replacement) + Replace(t, c, replacement)
  {
    if s == "" {
      assert s + t == t;
    } else {
      assert (s + t)[1..] == s[1..] + t;
      ReplaceConcat(s[1..], t, c, replacement);
    }
  }

  /** Replacing backslashes first and quotes second amounts to one escape per character. */
  lemma {:induction false} ReplacesAreEscape(s: string)
    ensures Replace(Replace(s, '\\', "\\\\"), '"', "\\\"") == Escape(s)
  {
    if s != "" {
      var head := if s[0] == '\\' then "\\\\" else [s[0]];
      ReplaceConcat(head, Replace(s[1..], '\\', "\\\\"), '"', "\\\"");
      if s[0] == '\\' {
        assert head[1..] == "\\" && Replace(head, '"', "\\\"") == "\\\\";
      } else {
        assert head[1..] == "";
      }
      ReplacesAreEscape(s[1..]);
    }
  }

  lemma {:induction false} ReplaceAbsent(s: string, c: char, replacement: string)
    requires c !in s
    ensures Replace(s, c, replacement) == s
  {
    if s != "" {
      ReplaceAbsent(s[1..], c, replacement);
    }
  }

  // ---------------------------------------------------------------- reading a value

  function Unescape(s: string): string {
    if s == "" then ""
    else if s[0] == '\\' && |s| >= 2 then [s[1]] + Unescape(s[2..])
    else [s[0]] + Unescape(s[1..])
  }

  function EnvValue(raw: string): string {
    var v := Strip(raw);
    if |v| >= 2 && v[0] == '"' && v[|v| - 1] == '"' then Unescape(v[1..|v| - 1]) else v
  }

  method ParseEnvValue(raw: string) returns (value: string)
    ensures value == EnvValue(raw)
  {
    var v := Strip(raw);
    if |v| < 2 || v[0] != '"' || v[|v| - 1] != '"' {
      return v;
    }
    value := UnescapeLoop(v[1..|v| - 1]);
  }

  method UnescapeLoop(inner: string) returns (value: string)
    ensures value == Unescape(inner)
  {
    value := "";
    var i := 0;
    while i < |inner|
      invariant i <= |inner| && value + Unescape(inner[i..]) == Unescape(inner)
    {
      if inner[i] == '\\' && i + 1 < |inner| {
        assert inner[i..][2..] == inner[i + 2..];
        value := value + [inner[i + 1]];
        i := i + 2;
      } else {
        assert inner[i..][1..] == inner[i + 1..];
        value := value + [inner[i]];
        i := i + 1;
      }
    }
  }

  /** Unescaping undoes escaping, trailing backslashes and quotes included. */
  lemma {:induction false} UnescapeInverts(s: string)
    ensures Unescape(Escape(s)) == s
  {
    if s != "" {
      UnescapeInverts(s[1..]);
      if s[0] == '\\' || s[0] == '"' {
        assert Escape(s)[2..] == Escape(s[1..]);
      } else {
        assert Escape(s)[1..] == Escape(s[1..]);
      }
    }
  }

  // ---------------------------------------------------------------- reading a file

  /** The characters at which `str.splitlines` breaks. */
  predicate IsLineBreak(c: char) {
    '\n' <= c <= '\r' || '\U{1C}' <= c <= '\U{1E}' || c == '\U{85}' || c == '\U{2028}' || c == '\U{2029}'
  }

  predicate OneLine(s: string) {
    forall i :: 0 <= i < |s| ==> !IsLineBreak(s[i])
  }

  function LineEnd(s: string): (i: nat)
    ensures i <= |s| && OneLine(s[..i]) && (i < |s| ==> IsLineBreak(s[i]))
  {
    if s == "" || IsLineBreak(s[0]) then 0 else 1 + LineEnd(s[1..])
  }

  /** `str.splitlines`; it does not matter that reading a text file turns carriage returns into line feeds. */
  function SplitLines(s: string): (lines: seq<string>)
    ensures forall l :: l in lines ==> OneLine(l)
  {
    if s == "" then []
    else
      var i := LineEnd(s);
      if i == |s| then [s]
      else if i + 1 < |s| && s[i] == '\r' && s[i + 1] == '\n' then [s[..i]] + SplitLines(s[i + 2..])
      else [s[..i]] + SplitLines(s[i + 1..])
  }

  /** The key and value a line defines. */
  function LineEntry(raw: string): Option<(string, string)> {
    var line := Strip(raw);
    var i := IndexOf(line, '=');
    if line == "" || line[0] == '#' || i == |line| then None else Some((Strip(line[..i]), EnvValue(line[i + 1..])))
  }

  type Entry = Option<(string, string)>

  /** Later entries override earlier ones. */
  function Merged(entries: seq<Entry>): map<string, string> {
    if entries == [] then map[]
    else
      var before := Merged(entries[..|entries| - 1]);
      match entries[|entries| - 1]
      case None => before
      case Some((key, value)) => before[key := value]
  }

  function LineEntries(lines: seq<string>): (entries: seq<Entry>)
    ensures |entries| == |lines| && forall i :: 0 <= i < |lines| ==> entries[i] == LineEntry(lines[i])
  {
    seq(|lines|, i requires 0 <= i < |lines| => LineEntry(lines[i]))
  }

  function Parsed(text: string): map<string, string> {
    Merged(LineEntries(SplitLines(text)))
  }

  method ParseEnvFile(text: string) returns (entries: map<string, string>)
    ensures entries == Parsed(text)
  {
    var lines := SplitLines(text);
    entries := map[];
    for n := 0 to |lines|
      invariant entries == Merged(LineEntries(lines)[..n])
    {
      assert LineEntries(lines)[..n + 1][..n] == LineEntries(lines)[..n];
      var line := Strip(lines[n]);
      if line == "" || line[0] == '#' {
        continue;
      }
      var i := IndexOf(line, '=');
      if i == |line| {
        continue;
      }
      var value := ParseEnvValue(line[i + 1..]);
      entries := entries[Strip(line[..i]) := value];
    }
    assert LineEntries(lines)[..|lines|] == LineEntries(lines);
  }

  // ---------------------------------------------------------------- writing a file

  const KEY_ORDER: seq<string> := [
    "DATABASE_URL",
    "DEVNEST_COMPOSE_DATABASE_URL",
    "DEVNEST_DATABASE_URL",
    "DEVNEST_EXPECT_EXTERNAL_POSTGRES",
    "DEVNEST_EXPECT_REMOTE_GATEWAY_CLIENTS",
    "DEVNEST_BASE_DOMAIN",
    "DEVNEST_GATEWAY_PUBLIC_SCHEME",
    "DEVNEST_GATEWAY_PUBLIC_PORT",
    "DEVNEST_FRONTEND_PUBLIC_BASE_URL",
    "NEXT_PUBLIC_APP_BASE_URL",
    "NEXT_PUBLIC_API_BASE_URL",
    "GITHUB_OAUTH_PUBLIC_BASE_URL",
    "GCLOUD_OAUTH_PUBLIC_BASE_URL",
    "DEVNEST_SNAPSHOT_STORAGE_PROVIDER",
    "DEVNEST_S3_SNAPSHOT_BUCKET",
    "DEVNEST_S3_SNAPSHOT_PREFIX",
    "AWS_REGION",
    "AWS_ACCESS_KEY_ID",
    "AWS_SECRET_ACCESS_KEY",
    "OAUTH_GITHUB_CLIENT_ID",
    "OAUTH_GITHUB_CLIENT_SECRET",
    "OAUTH_GOOGLE_CLIENT_ID",
    "OAUTH_GOOGLE_CLIENT_SECRET"]

  predicate NoRepeats(keys: seq<string>) {
    forall i, j :: 0 <= i < j < |keys| ==> keys[i] != keys[j]
  }

  /** The listed keys that the data defines, in the order of the list. */
  function Known(order: seq<string>, data: map<string, string>): (keys: seq<string>)
    ensures forall k :: k in keys <==> k in order && k in data
  {
    if order == [] then []
    else
      var last := order[|order| - 1];
      assert order == order[..|order| - 1] + [last];
      Known(order[..|order| - 1], data) + if last in data then [last] else []
  }

  function Unlisted(data: map<string, string>): set<string> {
    set k | k in data && k !in KEY_ORDER
  }

  /** The order in which the keys are written: the listed ones first, then the others sorted. */
  ghost predicate EmitOrder(keys: seq<string>, data: map<string, string>) {
    exists extras :: Lists(extras, Unlisted(data)) && keys == Known(KEY_ORDER, data) + extras
  }

  function Rendered(keys: seq<string>, data: map<string, string>): string
    requires forall k :: k in keys ==> k in data
  {
    if keys == [] then "" else FormatEnvLine(keys[0], data[keys[0]]) + Rendered(keys[1..], data)
  }

  ghost predicate IsFileOf(text: string, data: map<string, string>) {
    exists keys :: EmitOrder(keys, data) && (forall k :: k in keys ==> k in data) && text == Rendered(keys, data)
  }

  method KnownKeys(order: seq<string>, data: map<string, string>) returns (keys: seq<string>)
    ensures keys == Known(order, data)
  {
    keys := [];
    for i := 0 to |order|
      invariant keys == Known(order[..i], data)
    {
      assert order[..i + 1][..i] == order[..i];
      if order[i] in data {
        keys := keys + [order[i]];
      }
    }
    assert order[..|order|] == order;
  }

  method EmittedKeys(data: map<string, string>) returns (keys: seq<string>)
    ensures EmitOrder(keys, data) && forall k :: k in keys ==> k in data
  {
    var extras := SortedKeys(Unlisted(data));
    keys := KnownKeys(KEY_ORDER, data);
    keys := keys + extras;
  }

  /** What is written and what is still to be written, before and after one more line. */
  lemma RenderedMoves(text: string, keys: seq<string>, data: map<string, string>, i: nat)
    requires i < |keys| && forall k :: k in keys ==> k in data
    ensures text + FormatEnvLine(keys[i], data[keys[i]]) + Rendered(keys[i + 1..], data)
            == text + Rendered(keys[i..], data)
  {
    assert keys[i..][1..] == keys[i + 1..];
    LinesRegroup(text, FormatEnvLine(keys[i], data[keys[i]]), Rendered(keys[i + 1..], data));
  }

  lemma LinesRegroup(a: string, b: string, c: string)
    ensures a + b + c == a + (b + c)
  {
  }

  /** The loop over the keys. */
  method WriteLines(keys: seq<string>, data: map<string, string>) returns (text: string)
    requires forall k :: k in keys ==> k in data
    ensures text == Rendered(keys, data)
  {
    text := "";
    for i := 0 to |keys|
      invariant text + Rendered(keys[i..], data) == Rendered(keys, data)
    {
      RenderedMoves(text, keys, data, i);
      text := text + FormatEnvLine(keys[i], data[keys[i]]);
    }
  }

  method WriteDict(data: map<string, string>) returns (text: string)
    ensures IsFileOf(text, data)
  {
    var keys := EmittedKeys(data);
    text := WriteLines(keys, data);
  }

  // ---------------------------------------------------------------- each key once

  /** Position of a key in the list, told from its length and a few letters. */
  ghost function Position(k: string): int {
    if |k| == 12 then 0
    else if |k| == 28 then (if k[0] == 'D' then 1 else if k[1] == 'I' then 11 else 12)
    else if |k| == 20 then 2
    else if |k| == 32 then (if k[8] == 'E' then 3 else 8)
    else if |k| == 37 then 4
    else if |k| == 19 then 5
    else if |k| == 29 then 6
    else if |k| == 27 then 7
    else if |k| == 24 then (if k[14] == 'P' then 9 else 10)
    else if |k| == 33 then 13
    else if |k| == 26 then
      (if k[0] == 'D' then (if k[20] == 'B' then 14 else 15) else if k[7] == 'I' then 20 else 22)
    else if |k| == 10 then 16
    else if |k| == 17 then 17
    else if |k| == 21 then 18
    else if |k| == 22 then (if k[7] == 'I' then 19 else 21)
    else -1
  }

  lemma ListedOnce()
    ensures NoRepeats(KEY_ORDER)
  {
    assert forall i :: 0 <= i < |KEY_ORDER| ==> Position(KEY_ORDER[i]) == i;
  }

  lemma {:induction false} KnownOnce(order: seq<string>, data: map<string, string>)
    requires NoRepeats(order)
    ensures NoRepeats(Known(order, data))
  {
    if order != [] {
      KnownOnce(order[..|order| - 1], data);
    }
  }

  /** The file defines every key of the data, and each of them once. */
  lemma EachKeyOnce(keys: seq<string>, data: map<string, string>)
    requires EmitOrder(keys, data)
    ensures NoRepeats(keys) && forall k :: k in keys <==> k in data
  {
    ListedOnce();
    KnownOnce(KEY_ORDER, data);
    var extras :| Lists(extras, Unlisted(data)) && keys == Known(KEY_ORDER, data) + extras;
    forall i, j | 0 <= i < j < |extras| ensures extras[i] != extras[j] {
      LessTotal(extras[i], extras[j]);
    }
    JoinedOnce(Known(KEY_ORDER, data), extras);
  }

  lemma JoinedOnce(a: seq<string>, b: seq<string>)
    requires NoRepeats(a) && NoRepeats(b) && forall k :: k in a ==> k !in b
    ensures NoRepeats(a + b)
  {
    forall i, j | 0 <= i < j < |a + b| ensures (a + b)[i] != (a + b)[j] {
      assert j >= |a| ==> (a + b)[j] in b;
      assert i < |a| ==> (a + b)[i] in a;
    }
  }

  // ---------------------------------------------------------------- the round trip

  predicate GoodKey(k: string) {
    Trimmed(k) && OneLine(k) && '=' !in k && (k == "" || k[0] != '#')
  }

  /** Data whose keys a line can define and whose values fit on one line. */
  predicate Writable(data: map<string, string>) {
    forall k :: k in data ==> GoodKey(k) && OneLine(data[k])
  }

  function LineFor(key: string, val: string): string {
    key + "=\"" + Escape(val) + "\""
  }

  lemma {:induction false} EscapeStaysOnLine(s: string)
    requires OneLine(s)
    ensures OneLine(Escape(s))
  {
    if s != "" {
      EscapeStaysOnLine(s[1..]);
    }
  }

  lemma FormattedLine(key: string, val: string)
    requires OneLine(val)
    ensures FormatEnvLine(key, val) == LineFor(key, val) + "\n"
  {
    ReplaceAbsent(val, '\r', "");
    ReplaceAbsent(val, '\n', "");
    ReplacesAreEscape(val);
  }

  lemma ValueInverts(val: string)
    ensures EnvValue("\"" + Escape(val) + "\"") == val
  {
    var raw := "\"" + Escape(val) + "\"";
    TrimmedIsFixed(raw);
    assert raw[1..|raw| - 1] == Escape(val);
    UnescapeInverts(val);
  }

  lemma LineSplits(key: string, val: string)
    requires GoodKey(key)
    ensures var line := LineFor(key, val);
            && Strip(line) == line && line != "" && line[0] != '#'
            && IndexOf(line, '=') == |key| && |key| < |line| && line[..|key|] == key
            && line[|key| + 1..] == "\"" + Escape(val) + "\""
  {
    var line := LineFor(key, val);
    assert line == key + ("=" + ("\"" + Escape(val) + "\""));
    TrimmedIsFixed(line);
    IndexOfUnique(line, '=', |key|);
  }

  /** A written line defines its key with its value. */
  lemma LineDefines(key: string, val: string)
    requires GoodKey(key)
    ensures LineEntry(LineFor(key, val)) == Some((key, val))
  {
    LineSplits(key, val);
    TrimmedIsFixed(key);
    ValueInverts(val);
  }

  lemma SplitFirst(line: string, rest: string)
    requires OneLine(line)
    ensures SplitLines(line + "\n" + rest) == [line] + SplitLines(rest)
  {
    var s := line + "\n" + rest;
    assert s[|line|] == '\n';
    assert forall i :: 0 <= i < |line| ==> s[i] == line[i];
    assert LineEnd(s) == |line|;
    assert s[..|line|] == line && s[|line| + 1..] == rest;
  }

  lemma {:induction false} RenderedLines(keys: seq<string>, data: map<string, string>)
    requires Writable(data) && forall k :: k in keys ==> k in data
    ensures SplitLines(Rendered(keys, data))
            == seq(|keys|, i requires 0 <= i < |keys| => LineFor(keys[i], data[keys[i]]))
  {
    if keys != [] {
      var k := keys[0];
      assert k in keys;
      RenderedLines(keys[1..], data);
      FormattedLine(k, data[k]);
      EscapeStaysOnLine(data[k]);
      SplitFirst(LineFor(k, data[k]), Rendered(keys[1..], data));
    }
  }

  lemma {:induction false} MergedDefines(entries: seq<Entry>, keys: seq<string>, data: map<string, string>)
    requires |entries| == |keys| && forall k :: k in keys ==> k in data
    requires forall i :: 0 <= i < |keys| ==> entries[i] == Some((keys[i], data[keys[i]]))
    ensures Merged(entries) == map k | k in keys :: data[k]
  {
    if keys != [] {
      var n := |keys| - 1;
      MergedDefines(entries[..n], keys[..n], data);
      assert keys == keys[..n] + [keys[n]];
    }
  }

  lemma {:induction false} UnescapeStaysOnLine(s: string)
    requires OneLine(s)
    ensures OneLine(Unescape(s))
    decreases |s|
  {
    if s != "" {
      if s[0] == '\\' && |s| >= 2 {
        UnescapeStaysOnLine(s[2..]);
      } else {
        UnescapeStaysOnLine(s[1..]);
      }
    }
  }

  lemma ValueStaysOnLine(raw: string)
    requires OneLine(raw)
    ensures OneLine(EnvValue(raw))
  {
    var a, b := StripSlice(raw);
    var v := Strip(raw);
    assert OneLine(v);
    if |v| >= 2 {
      UnescapeStaysOnLine(v[1..|v| - 1]);
    }
  }

  /** Stripping the start of a trimmed line only cuts at its end. */
  lemma StripOfStart(line: string, i: nat) returns (d: nat)
    requires Trimmed(line) && i <= |line|
    ensures d <= i && Strip(line[..i]) == line[..d] && Trimmed(line[..d])
  {
    var a, b := StripSlice(line[..i]);
    assert LeftStrip(line[..i]) == line[..i];
    d := RightStripSlice(line[..i]);
  }

  lemma EntryIsGood(raw: string)
    requires OneLine(raw)
    ensures LineEntry(raw).Some? ==> GoodKey(LineEntry(raw).value.0) && OneLine(LineEntry(raw).value.1)
  {
    var line := Strip(raw);
    var a, b := StripSlice(raw);
    assert OneLine(line);
    var i := IndexOf(line, '=');
    if i < |line| {
      var d := StripOfStart(line, i);
      ValueStaysOnLine(line[i + 1..]);
    }
  }

  lemma {:induction false} MergedIsWritable(entries: seq<Entry>)
    requires forall e :: e in entries && e.Some? ==> GoodKey(e.value.0) && OneLine(e.value.1)
    ensures Writable(Merged(entries))
  {
    if entries != [] {
      assert entries[|entries| - 1] in entries;
      MergedIsWritable(entries[..|entries| - 1]);
    }
  }

  /** Whatever the text, the parsed dictionary is writable. */
  lemma ParsedIsWritable(text: string)
    ensures Writable(Parsed(text))
  {
    var lines := SplitLines(text);
    forall e | e in LineEntries(lines) && e.Some? ensures GoodKey(e.value.0) && OneLine(e.value.1) {
      var i :| 0 <= i < |lines| && e == LineEntry(lines[i]);
      assert lines[i] in lines;
      EntryIsGood(lines[i]);
    }
    MergedIsWritable(LineEntries(lines));
  }

  lemma LinesAreDefined(lines: seq<string>, keys: seq<string>, data: map<string, string>)
    requires Writable(data) && |lines| == |keys| && forall k :: k in keys ==> k in data
    requires forall i :: 0 <= i < |keys| ==> lines[i] == LineFor(keys[i], data[keys[i]])
    ensures Merged(LineEntries(lines)) == map k | k in keys :: data[k]
  {
    var entries := LineEntries(lines);
    forall i | 0 <= i < |keys| ensures entries[i] == Some((keys[i], data[keys[i]])) {
      assert keys[i] in keys;
      LineDefines(keys[i], data[keys[i]]);
    }
    MergedDefines(entries, keys, data);
  }

  lemma WritableIsRead(keys: seq<string>, data: map<string, string>)
    requires Writable(data) && forall k :: k in keys <==> k in data
    ensures Parsed(Rendered(keys, data)) == data
  {
    RenderedLines(keys, data);
    LinesAreDefined(SplitLines(Rendered(keys, data)), keys, data);
  }

  /** Parsing the written file gives back the dictionary exactly when it is writable. */
  lemma FileRoundTrip(text: string, data: map<string, string>)
    requires IsFileOf(text, data)
    ensures Parsed(text) == data <==> Writable(data)
  {
    ParsedIsWritable(text);
    if Writable(data) {
      var keys :| EmitOrder(keys, data) && (forall k :: k in keys ==> k in data) && text == Rendered(keys, data);
      EachKeyOnce(keys, data);
      WritableIsRead(keys, data);
    }
  }
}
