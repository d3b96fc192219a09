/** The scanner for libpq keyword connection strings, and the printer it inverts. */
module Conninfo {
  import opened Wrappers
  import opened Text

  /** The text of a quoted value up to its closing quote, with doubled quotes undone, and what follows. A missing
      closing quote is not an error. */
  function Quoted(s: string): (r: (string, string))
    ensures |r.1| <= |s|
  {
    if s == "" then ("", "")
    else if s[0] != '\'' then
      var (value, rest) := Quoted(s[1..]);
      ([s[0]] + value, rest)
    else if |s| >= 2 && s[1] == '\'' then
      var (value, rest) := Quoted(s[2..]);
      ("'" + value, rest)
    else ("", s[1..])
  }

  /** Length of the part before the first white space. */
  function TokenEnd(s: string): (i: nat)
    ensures i <= |s|
  {
    if s == "" || IsSpace(s[0]) then 0 else 1 + TokenEnd(s[1..])
  }

  lemma LeftStripIsShorter(s: string)
    ensures |LeftStrip(s)| <= |s|
  {
    var a := LeftStripSlice(s);
  }

  /** The value after an equals sign and what follows it. */
  function ValueOf(s: string): (r: (string, string))
    ensures |r.1| <= |s|
  {
    if s != "" && s[0] == '\'' then Quoted(s[1..]) else (s[..TokenEnd(s)], s[TokenEnd(s)..])
  }

  /** Key and value of the pair at the start of a text, and what follows; None when it has no equals sign. */
  function FirstPair(s: string): (r: Option<(string, string, string)>)
    ensures r.Some? ==> |r.value.2| < |s|
  {
    var j := IndexOf(s, '=');
    if j == |s| then None
    else
      var (value, after) := ValueOf(s[j + 1..]);
      Some((Lower(Strip(s[..j])), value, after))
  }

  /** The dictionary after scanning the text into it; None for a malformed string. */
  function ScanInto(s: string, out: map<string, string>): Option<map<string, string>>
    decreases |s|
  {
    LeftStripIsShorter(s);
    var t := LeftStrip(s);
    if t == "" then Some(out)
    else
      match FirstPair(t)
      case None => None
      case Some((key, value, after)) => ScanInto(after, out[key := value])
  }

  function Parsed(conninfo: string): Option<map<string, string>> {
    ScanInto(Strip(conninfo), map[])
  }

  // ---------------------------------------------------------------- the scanner

  method SkipSpace(s: string, start: nat) returns (i: nat)
    requires start <= |s|
    ensures start <= i <= |s| && s[i..] == LeftStrip(s[start..])
  {
    i := start;
    while i < |s| && IsSpace(s[i])
      invariant start <= i <= |s| && LeftStrip(s[i..]) == LeftStrip(s[start..])
    {
      assert s[i..][1..] == s[i + 1..];
      i := i + 1;
    }
  }

  lemma QuotedAt(s: string, i: nat)
    requires i < |s|
    ensures var (value, rest) := Quoted(s[i..]);
            if s[i] != '\'' then value == [s[i]] + Quoted(s[i + 1..]).0 && rest == Quoted(s[i + 1..]).1
            else if i + 1 < |s| && s[i + 1] == '\'' then
              value == "'" + Quoted(s[i + 2..]).0 && rest == Quoted(s[i + 2..]).1
            else value == "" && rest == s[i + 1..]
  {
    assert s[i..][1..] == s[i + 1..];
    assert i + 1 < |s| ==> s[i..][2..] == s[i + 2..];
  }

  /** What the scanner has and what it will find, before and after it takes one character or a doubled quote. */
  lemma QuotedMoves(value: string, s: string, i: nat)
    requires i < |s|
    ensures s[i] != '\'' ==>
              && value + [s[i]] + Quoted(s[i + 1..]).0 == value + Quoted(s[i..]).0
              && Quoted(s[i + 1..]).1 == Quoted(s[i..]).1
    ensures s[i] == '\'' && i + 1 < |s| && s[i + 1] == '\'' ==>
              && value + "'" + Quoted(s[i + 2..]).0 == value + Quoted(s[i..]).0
              && Quoted(s[i + 2..]).1 == Quoted(s[i..]).1
    ensures s[i] == '\'' && !(i + 1 < |s| && s[i + 1] == '\'') ==> Quoted(s[i..]) == ("", s[i + 1..])
  {
    QuotedAt(s, i);
  }

  method ScanQuoted(s: string, start: nat) returns (value: string, i: nat)
    requires start <= |s|
    ensures start <= i <= |s| && value == Quoted(s[start..]).0 && s[i..] == Quoted(s[start..]).1
  {
    value, i := "", start;
    ghost var target := Quoted(s[start..]);
    while i < |s|
      invariant start <= i <= |s|
      invariant value + Quoted(s[i..]).0 == target.0 && Quoted(s[i..]).1 == target.1
    {
      QuotedMoves(value, s, i);
      if s[i] != '\'' {
        value := value + [s[i]];
        i := i + 1;
      } else if i + 1 < |s| && s[i + 1] == '\'' {
        value := value + "'";
        i := i + 2;
      } else {
        assert value + "" == value;
        i := i + 1;
        return;
      }
    }
  }

  method ScanToken(s: string, start: nat) returns (i: nat)
    requires start <= |s|
    ensures start <= i <= |s| && i - start == TokenEnd(s[start..])
  {
    i := start;
    while i < |s| && !IsSpace(s[i])
      invariant start <= i <= |s| && i - start + TokenEnd(s[i..]) == TokenEnd(s[start..])
    {
      assert s[i..][1..] == s[i + 1..];
      i := i + 1;
    }
  }

  method ScanKey(s: string, start: nat) returns (i: nat)
    requires start <= |s|
    ensures start <= i <= |s| && i - start == IndexOf(s[start..], '=')
  {
    i := start;
    while i < |s| && s[i] != '='
      invariant start <= i <= |s| && i - start + IndexOf(s[i..], '=') == IndexOf(s[start..], '=')
    {
      assert s[i..][1..] == s[i + 1..];
      i := i + 1;
    }
  }

  lemma SliceAt(s: string, start: nat, i: nat)
    requires start <= i <= |s|
    ensures s[start..][..i - start] == s[start..i] && s[start..][i - start..] == s[i..]
  {
  }

  method ScanValue(s: string, start: nat) returns (value: string, i: nat)
    requires start <= |s|
    ensures start <= i <= |s| && value == ValueOf(s[start..]).0 && s[i..] == ValueOf(s[start..]).1
  {
    if start < |s| && s[start] == '\'' {
      assert s[start..][1..] == s[start + 1..];
      value, i := ScanQuoted(s, start + 1);
    } else {
      i := ScanToken(s, start);
      value := s[start..i];
      SliceAt(s, start, i);
    }
  }

  /** One key and its value, scanned from position `start`; None for a missing equals sign. */
  method ScanPair(s: string, start: nat) returns (r: Option<(string, string)>, i: nat)
    requires start <= |s|
    ensures match FirstPair(s[start..])
            case None => r == None
            case Some((key, value, after)) => r == Some((key, value)) && start < i <= |s| && s[i..] == after
  {
    var j := ScanKey(s, start);
    if j == |s| {
      return None, j;
    }
    SliceAt(s, start, j);
    SliceAt(s, start, j + 1);
    var value;
    value, i := ScanValue(s, j + 1);
    r := Some((Lower(Strip(s[start..j])), value));
  }

  method ParseLibpqKeywordConninfo(conninfo: string) returns (r: Option<map<string, string>>)
    ensures r == Parsed(conninfo)
  {
    var s := Strip(conninfo);
    var out: map<string, string> := map[];
    var i := 0;
    while i < |s|
      invariant i <= |s| && ScanInto(s[i..], out) == ScanInto(s, map[])
    {
      i := SkipSpace(s, i);
      if i == |s| {
        break;
      }
      var pair;
      pair, i := ScanPair(s, i);
      if pair.None? {
        return None;
      }
      out := out[pair.value.0 := pair.value.1];
    }
    r := Some(out);
  }

  // ---------------------------------------------------------------- the printer

  type Pair = (string, string)

  /** Every quote written twice. */
  function Doubled(s: string): string {
    if s == "" then "" else (if s[0] == '\'' then "''" else [s[0]]) + Doubled(s[1..])
  }

  function PairText(key: string, value: string): string {
    key + "='" + Doubled(value) + "'"
  }

  /** The pairs set apart by single spaces, and then more text. */
  function PrintedBefore(pairs: seq<Pair>, tail: string): string {
    if pairs == [] then tail
    else
      PairText(pairs[0].0, pairs[0].1) + if |pairs| == 1 then tail else " " + PrintedBefore(pairs[1..], tail)
  }

  function Printed(pairs: seq<Pair>): string {
    PrintedBefore(pairs, "")
  }

  /** The dictionary of the pairs: the last value of a key wins. */
  function Merged(pairs: seq<Pair>, out: map<string, string>): map<string, string>
    decreases |pairs|
  {
    if pairs == [] then out else Merged(pairs[1..], out[pairs[0].0 := pairs[0].1])
  }

  /** Keys the scanner can return. */
  predicate Canonical(key: string) {
    Trimmed(key) && Lower(key) == key && '=' !in key
  }

  lemma {:induction false} QuotedInverts(value: string, after: string)
    requires after == "" || after[0] != '\''
    ensures Quoted(Doubled(value) + "'" + after) == (value, after)
  {
    var s := Doubled(value) + "'" + after;
    if value == "" {
      assert s[1..] == after;
    } else {
      QuotedInverts(value[1..], after);
      assert value == [value[0]] + value[1..];
      var tail := Doubled(value[1..]) + "'" + after;
      if value[0] == '\'' {
        assert s == "''" + tail && s[2..] == tail;
      } else {
        assert s == [value[0]] + tail && s[1..] == tail;
      }
    }
  }

  /** Where the key of a printed pair ends, and what the scanner finds after it. */
  lemma PairSplits(key: string, value: string, after: string)
    requires '=' !in key
    ensures var s := PairText(key, value) + after;
            && IndexOf(s, '=') == |key| && |key| < |s| && s[..|key|] == key
            && s[|key| + 1..] == "'" + (Doubled(value) + "'" + after)
  {
    var rest := "'" + (Doubled(value) + "'" + after);
    PairRegroups(key, Doubled(value), after);
    KeyAtStart(key, rest);
  }

  lemma PairRegroups(key: string, doubled: string, after: string)
    ensures key + "='" + doubled + "'" + after == key + ("=" + ("'" + (doubled + "'" + after)))
  {
  }

  lemma KeyAtStart(key: string, rest: string)
    requires '=' !in key
    ensures var s := key + ("=" + rest);
            IndexOf(s, '=') == |key| && |key| < |s| && s[..|key|] == key && s[|key| + 1..] == rest
  {
    var s := key + ("=" + rest);
    assert s[|key|] == '=';
    IndexOfUnique(s, '=', |key|);
  }

  lemma ValueInverts(value: string, after: string)
    requires after == "" || after[0] != '\''
    ensures ValueOf("'" + (Doubled(value) + "'" + after)) == (value, after)
  {
    var s := "'" + (Doubled(value) + "'" + after);
    assert s[1..] == Doubled(value) + "'" + after;
    QuotedInverts(value, after);
  }

  lemma PairInverts(key: string, value: string, after: string)
    requires Canonical(key) && (after == "" || after[0] != '\'')
    ensures FirstPair(PairText(key, value) + after) == Some((key, value, after))
  {
    PairSplits(key, value, after);
    TrimmedIsFixed(key);
    ValueInverts(value, after);
  }

  lemma PairScans(key: string, value: string, after: string, out: map<string, string>)
    requires Canonical(key) && (after == "" || after[0] != '\'')
    ensures ScanInto(PairText(key, value) + after, out) == ScanInto(after, out[key := value])
  {
    var s := PairText(key, value) + after;
    PairInverts(key, value, after);
    assert s[0] == if key == "" then '=' else key[0];
    assert LeftStrip(s) == s;
  }

  lemma SpaceIsSkipped(s: string, out: map<string, string>)
    ensures ScanInto(" " + s, out) == ScanInto(s, out)
  {
    assert (" " + s)[1..] == s;
    assert LeftStrip(" " + s) == LeftStrip(s);
  }

  /** Printed pairs are scanned one after the other, up to any text set off by white space. */
  lemma {:induction false} PrintedScans(pairs: seq<Pair>, tail: string, out: map<string, string>)
    requires forall p :: p in pairs ==> Canonical(p.0)
    requires tail == "" || IsSpace(tail[0])
    ensures ScanInto(PrintedBefore(pairs, tail), out) == ScanInto(tail, Merged(pairs, out))
    decreases |pairs|
  {
    if pairs != [] {
      var (key, value) := pairs[0];
      assert pairs[0] in pairs;
      if |pairs| == 1 {
        PairScans(key, value, tail, out);
        assert pairs[1..] == [];
      } else {
        PairScans(key, value, " " + PrintedBefore(pairs[1..], tail), out);
        SpaceIsSkipped(PrintedBefore(pairs[1..], tail), out[key := value]);
        PrintedScans(pairs[1..], tail, out[key := value]);
      }
    }
  }

  lemma {:induction false} PrintedIsTrimmed(pairs: seq<Pair>, tail: string)
    requires forall p :: p in pairs ==> Canonical(p.0)
    requires pairs != [] && (tail == "" || !IsSpace(tail[|tail| - 1]))
    ensures PrintedBefore(pairs, tail) != "" && Trimmed(PrintedBefore(pairs, tail))
  {
    assert pairs[0] in pairs;
    if |pairs| > 1 {
      PrintedIsTrimmed(pairs[1..], tail);
    }
  }

  // ---------------------------------------------------------------- what the scanner returns

  lemma LoweredIsCanonical(text: string)
    requires '=' !in text
    ensures Canonical(Lower(Strip(text)))
  {
    var a, b := StripSlice(text);
    var bare := Strip(text);
    var key := Lower(bare);
    forall i | 0 <= i < |key|
      ensures LowerChar(key[i]) == key[i] && IsSpace(key[i]) == IsSpace(bare[i]) && key[i] != '='
    {
      LowerCharKeeps(bare[i]);
    }
    assert forall i :: 0 <= i < |key| ==> Lower(key)[i] == key[i];
  }

  lemma {:induction false} ScannedIsCanonical(s: string, out: map<string, string>)
    requires forall k :: k in out ==> Canonical(k)
    ensures ScanInto(s, out).Some? ==> forall k :: k in ScanInto(s, out).value ==> Canonical(k)
    decreases |s|
  {
    LeftStripIsShorter(s);
    var t := LeftStrip(s);
    if t != "" && FirstPair(t).Some? {
      var (key, value, after) := FirstPair(t).value;
      LoweredIsCanonical(t[..IndexOf(t, '=')]);
      ScannedIsCanonical(after, out[key := value]);
    }
  }

  lemma {:induction false} MergedKeys(pairs: seq<Pair>, out: map<string, string>)
    ensures forall p :: p in pairs ==> p.0 in Merged(pairs, out)
    ensures forall k :: k in out ==> k in Merged(pairs, out)
    decreases |pairs|
  {
    if pairs != [] {
      MergedKeys(pairs[1..], out[pairs[0].0 := pairs[0].1]);
      assert pairs == [pairs[0]] + pairs[1..];
    }
  }

  /** In the dictionary of the pairs a key has the value of its last pair. */
  lemma {:induction false} LastPairWins(pairs: seq<Pair>, out: map<string, string>, key: string, i: nat)
    requires i < |pairs| && pairs[i].0 == key && forall j :: i < j < |pairs| ==> pairs[j].0 != key
    ensures key in Merged(pairs, out) && Merged(pairs, out)[key] == pairs[i].1
    decreases |pairs|
  {
    var next := out[pairs[0].0 := pairs[0].1];
    if i == 0 {
      OtherKeysStay(pairs[1..], next, key);
    } else {
      LastPairWins(pairs[1..], next, key, i - 1);
    }
  }

  /** A key without a pair keeps what it has. */
  lemma {:induction false} OtherKeysStay(pairs: seq<Pair>, out: map<string, string>, key: string)
    requires forall p :: p in pairs ==> p.0 != key
    ensures key in Merged(pairs, out) <==> key in out
    ensures key in out ==> Merged(pairs, out)[key] == out[key]
    decreases |pairs|
  {
    if pairs != [] {
      assert pairs[0] in pairs;
      OtherKeysStay(pairs[1..], out[pairs[0].0 := pairs[0].1], key);
    }
  }

  /** Scanning printed pairs gives back their dictionary, whatever the values, exactly when every key is canonical. */
  lemma ConninfoRoundTrip(pairs: seq<Pair>)
    ensures Parsed(Printed(pairs)) == Some(Merged(pairs, map[])) <==> forall p :: p in pairs ==> Canonical(p.0)
  {
    if forall p :: p in pairs ==> Canonical(p.0) {
      if pairs != [] {
        PrintedIsTrimmed(pairs, "");
      }
      TrimmedIsFixed(Printed(pairs));
      PrintedScans(pairs, "", map[]);
    } else {
      ScannedIsCanonical(Strip(Printed(pairs)), map[]);
      MergedKeys(pairs, map[]);
    }
  }

  /** A word without an equals sign after well-formed pairs makes the whole string malformed. */
  lemma LooseWordIsRefused(pairs: seq<Pair>, word: string)
    requires forall p :: p in pairs ==> Canonical(p.0)
    requires word != "" && Trimmed(word) && '=' !in word
    ensures Parsed(PrintedBefore(pairs, " " + word)) == None
  {
    PrintedScans(pairs, " " + word, map[]);
    SpaceIsSkipped(word, Merged(pairs, map[]));
    TrimmedIsFixed(word);
    assert ScanInto(word, Merged(pairs, map[])) == None;
    if pairs == [] {
      assert (" " + word)[1..] == word;
      assert LeftStrip(" " + word) == word;
    } else {
      PrintedIsTrimmed(pairs, " " + word);
      TrimmedIsFixed(PrintedBefore(pairs, " " + word));
    }
  }

  // ---------------------------------------------------------------- pairs as people write them

  /** A pair with the white space before it; its value stands in quotes, or plainly after the equals sign. */
  datatype Item = Item(gap: string, key: string, value: string, quoted: bool)

  function ItemText(item: Item): string {
    item.key + "=" + ValueText(item.value, item.quoted)
  }

  function ValueText(value: string, quoted: bool): string {
    if quoted then "'" + Doubled(value) + "'" else value
  }

  /** Keys without white space around them and without equals sign; plain values without white space and without a quote
      in front; quoted values of any kind. */
  predicate WellWritten(item: Item) {
    && AllSpace(item.gap) && Trimmed(item.key) && '=' !in item.key
    && (!item.quoted ==> NoSpace(item.value) && (item.value == "" || item.value[0] != '\''))
  }

  predicate NoSpace(s: string) {
    forall i :: 0 <= i < |s| ==> !IsSpace(s[i])
  }

  /** Well-written pairs, set apart by white space. */
  predicate SetApart(items: seq<Item>) {
    forall i :: 0 <= i < |items| ==> WellWritten(items[i]) && (i > 0 ==> items[i].gap != "")
  }

  function TextOf(items: seq<Item>): string {
    if items == [] then "" else items[0].gap + (ItemText(items[0]) + TextOf(items[1..]))
  }

  function PairsOf(items: seq<Item>): seq<Pair> {
    if items == [] then [] else [(Lower(items[0].key), items[0].value)] + PairsOf(items[1..])
  }

  lemma {:induction false} TokenEndsAt(value: string, rest: string)
    requires NoSpace(value) && (rest == "" || IsSpace(rest[0]))
    ensures TokenEnd(value + rest) == |value|
  {
    if value == "" {
      assert value + rest == rest;
    } else {
      assert (value + rest)[1..] == value[1..] + rest;
      TokenEndsAt(value[1..], rest);
    }
  }

  lemma PlainValue(value: string, rest: string)
    requires NoSpace(value) && (value == "" || value[0] != '\'') && (rest == "" || IsSpace(rest[0]))
    ensures ValueOf(value + rest) == (value, rest)
  {
    TokenEndsAt(value, rest);
    assert (value + rest)[..|value|] == value && (value + rest)[|value|..] == rest;
  }

  /** Any value that is read as such can follow a key. */
  lemma KeyIsRead(key: string, body: string, value: string, rest: string)
    requires Trimmed(key) && '=' !in key && ValueOf(body) == (value, rest)
    ensures FirstPair(key + "=" + body) == Some((Lower(key), value, rest))
  {
    var s := key + "=" + body;
    assert s[|key|] == '=' && s[..|key|] == key && s[|key| + 1..] == body;
    IndexOfUnique(s, '=', |key|);
    TrimmedIsFixed(key);
  }

  lemma Regroup(a: string, b: string, c: string, d: string)
    ensures a + b + c + d == a + b + (c + d) == a + (b + c + d)
  {
  }

  lemma WrittenValue(value: string, quoted: bool, rest: string)
    requires !quoted ==> NoSpace(value) && (value == "" || value[0] != '\'')
    requires rest == "" || IsSpace(rest[0])
    ensures ValueOf(ValueText(value, quoted) + rest) == (value, rest)
  {
    if quoted {
      ValueInverts(value, rest);
      Regroup("'", Doubled(value), "'", rest);
    } else {
      PlainValue(value, rest);
    }
  }

  lemma ItemIsRead(item: Item, rest: string)
    requires WellWritten(item) && (rest == "" || IsSpace(rest[0]))
    ensures FirstPair(ItemText(item) + rest) == Some((Lower(item.key), item.value, rest))
  {
    var text := ValueText(item.value, item.quoted);
    WrittenValue(item.value, item.quoted, rest);
    KeyIsRead(item.key, text + rest, item.value, rest);
    Regroup(item.key, "=", text, rest);
  }

  lemma ItemStarts(item: Item)
    requires WellWritten(item)
    ensures ItemText(item) != "" && !IsSpace(ItemText(item)[0])
  {
    assert ItemText(item)[0] == if item.key == "" then '=' else item.key[0];
  }

  /** One step of the scanner. */
  lemma ItemScans(item: Item, rest: string, out: map<string, string>)
    requires WellWritten(item) && (rest == "" || IsSpace(rest[0]))
    ensures ScanInto(item.gap + (ItemText(item) + rest), out) == ScanInto(rest, out[Lower(item.key) := item.value])
  {
    var s := ItemText(item) + rest;
    ItemStarts(item);
    LeftStripDrops(item.gap, s);
    ItemIsRead(item, rest);
  }

  lemma {:induction false} ItemsScan(items: seq<Item>, out: map<string, string>)
    requires SetApart(items)
    ensures ScanInto(TextOf(items), out) == Some(Merged(PairsOf(items), out))
    decreases |items|
  {
    if items != [] {
      var rest := TextOf(items[1..]);
      RestStartsWithSpace(items);
      ItemScans(items[0], rest, out);
      ItemsScan(items[1..], out[Lower(items[0].key) := items[0].value]);
      MergedCons(items, out);
    }
  }

  lemma MergedCons(items: seq<Item>, out: map<string, string>)
    requires items != []
    ensures Merged(PairsOf(items), out) == Merged(PairsOf(items[1..]), out[Lower(items[0].key) := items[0].value])
  {
    assert PairsOf(items)[1..] == PairsOf(items[1..]);
  }

  lemma RestStartsWithSpace(items: seq<Item>)
    requires SetApart(items) && items != []
    ensures SetApart(items[1..]) && (TextOf(items[1..]) == "" || IsSpace(TextOf(items[1..])[0]))
  {
    if |items| > 1 {
      assert items[1..][0] == items[1];
    }
  }

  lemma {:induction false} TextEnds(items: seq<Item>)
    requires SetApart(items) && items != []
    ensures TextOf(items) != "" && !IsSpace(TextOf(items)[|TextOf(items)| - 1])
    decreases |items|
  {
    ItemStarts(items[0]);
    if |items| == 1 {
      LastOfItem(items[0]);
      assert items[1..] == [];
    } else {
      RestStartsWithSpace(items);
      TextEnds(items[1..]);
    }
  }

  lemma LastOfItem(item: Item)
    requires WellWritten(item)
    ensures ItemText(item) != "" && !IsSpace(ItemText(item)[|ItemText(item)| - 1])
  {
  }

  /** Scanning any such text gives the dictionary of its pairs, the last value of a key winning, with the keys in lower
      case; white space around it makes no difference. */
  lemma WrittenPairsAreRead(items: seq<Item>, tail: string)
    requires SetApart(items) && AllSpace(tail)
    ensures Parsed(TextOf(items) + tail) == Some(Merged(PairsOf(items), map[]))
  {
    if items == [] {
      StripDrops("", "", tail);
      assert "" + "" + tail == TextOf(items) + tail;
    } else {
      var bare := [items[0].(gap := "")] + items[1..];
      FirstGapIsDropped(items, tail);
      assert SetApart(bare);
      ItemsScan(bare, map[]);
      SameWithoutGap(items, bare);
    }
  }

  lemma SameWithoutGap(items: seq<Item>, bare: seq<Item>)
    requires items != [] && bare == [items[0].(gap := "")] + items[1..]
    ensures PairsOf(bare) == PairsOf(items) && TextOf(items) == items[0].gap + TextOf(bare)
  {
    assert bare[1..] == items[1..];
    var text := ItemText(items[0]) + TextOf(items[1..]);
    assert "" + text == text;
    assert ItemText(bare[0]) == ItemText(items[0]);
  }

  lemma FirstGapIsDropped(items: seq<Item>, tail: string)
    requires SetApart(items) && items != [] && AllSpace(tail)
    ensures var bare := [items[0].(gap := "")] + items[1..]; Strip(TextOf(items) + tail) == TextOf(bare)
  {
    var bare := [items[0].(gap := "")] + items[1..];
    SameWithoutGap(items, bare);
    assert SetApart(bare);
    TextEnds(bare);
    ItemStarts(bare[0]);
    assert TextOf(bare)[0] == ItemText(bare[0])[0];
    StripDrops(items[0].gap, TextOf(bare), tail);
  }

  // ---------------------------------------------------------------- libpq's own escapes

  /** libpq's way to write a quoted value: a backslash before every quote and backslash. */
  function Backslashed(s: string): string {
    if s == "" then "" else (if s[0] == '\'' || s[0] == '\\' then ['\\', s[0]] else [s[0]]) + Backslashed(s[1..])
  }

  lemma QuotedKeeps(c: char, rest: string)
    requires c != '\''
    ensures Quoted([c] + rest).0 == [c] + Quoted(rest).0
  {
    assert ([c] + rest)[1..] == rest;
  }

  lemma PlainIsKept(c: char, rest: string)
    requires c != '\'' && c != '\\'
    ensures Quoted(Backslashed([c] + rest) + "'").0 == [c] + Quoted(Backslashed(rest) + "'").0
  {
    assert ([c] + rest)[1..] == rest;
    assert Backslashed([c] + rest) + "'" == [c] + (Backslashed(rest) + "'");
    QuotedKeeps(c, Backslashed(rest) + "'");
  }

  lemma BackslashIsDoubled(rest: string)
    ensures Quoted(Backslashed(['\\'] + rest) + "'").0 == ['\\'] + (['\\'] + Quoted(Backslashed(rest) + "'").0)
  {
    assert (['\\'] + rest)[1..] == rest;
    assert Backslashed(['\\'] + rest) + "'" == ['\\'] + (['\\'] + (Backslashed(rest) + "'"));
    QuotedKeeps('\\', ['\\'] + (Backslashed(rest) + "'"));
    QuotedKeeps('\\', Backslashed(rest) + "'");
  }

  lemma QuoteBecomesBackslash(rest: string)
    ensures var value := Quoted(Backslashed(['\''] + rest) + "'").0; value != "" && value[0] == '\\'
  {
    assert (['\''] + rest)[1..] == rest;
    assert Backslashed(['\''] + rest) + "'" == ['\\'] + (['\''] + (Backslashed(rest) + "'"));
    QuotedKeeps('\\', ['\''] + (Backslashed(rest) + "'"));
  }

  /** Up to the first quote, the scanner keeps every character that libpq's escaping wrote. */
  lemma {:induction false} BackslashesAreKept(s: string)
    ensures var q, value := IndexOf(s, '\''), Quoted(Backslashed(s) + "'").0;
            && (q < |s| ==> |value| > q && '\'' !in value[..q + 1])
            && (q == |s| ==> |value| >= |s| && ('\\' in s ==> |value| > |s|) && ('\\' !in s ==> value == s))
  {
    if s != "" {
      BackslashesAreKept(s[1..]);
      assert s == [s[0]] + s[1..];
      if s[0] == '\'' {
        QuoteBecomesBackslash(s[1..]);
      } else if s[0] == '\\' {
        BackslashIsDoubled(s[1..]);
      } else {
        PlainIsKept(s[0], s[1..]);
      }
    }
  }

  /** The value of the first pair is what was written exactly when that holds no quote and no backslash. */
  lemma FirstValueIsKept(s: string)
    ensures Quoted(Backslashed(s) + "'").0 == s <==> '\'' !in s && '\\' !in s
  {
    BackslashesAreKept(s);
    var q := IndexOf(s, '\'');
    assert q < |s| ==> s[q] == '\'';
  }

  /** The scanner takes the first quote of the value as its end, unless it is the last character; the rest is scanned as
      further pairs. */
  lemma {:induction false} RestOfBackslashed(s: string)
    ensures var q, rest := IndexOf(s, '\''), Quoted(Backslashed(s) + "'").1;
            rest == if q + 1 < |s| then Backslashed(s[q + 1..]) + "'" else ""
  {
    if s != "" {
      RestOfBackslashed(s[1..]);
      var tail := Backslashed(s[1..]) + "'";
      if s[0] == '\'' {
        assert Backslashed(s) + "'" == ['\\'] + (['\''] + tail);
        RestAfterQuote(s[1..]);
      } else if s[0] == '\\' {
        assert Backslashed(s) + "'" == ['\\'] + (['\\'] + tail);
        RestSkips('\\', ['\\'] + tail);
        RestSkips('\\', tail);
      } else {
        assert Backslashed(s) + "'" == [s[0]] + tail;
        RestSkips(s[0], tail);
      }
    }
  }

  lemma RestSkips(c: char, rest: string)
    requires c != '\''
    ensures Quoted([c] + rest).1 == Quoted(rest).1
  {
    assert ([c] + rest)[1..] == rest;
  }

  lemma RestAfterQuote(b: string)
    ensures Quoted(['\\'] + (['\''] + (Backslashed(b) + "'"))).1 == if b == "" then "" else Backslashed(b) + "'"
  {
    var tail := Backslashed(b) + "'";
    RestSkips('\\', ['\''] + tail);
    assert (['\''] + tail)[1..] == tail;
    if b == "" {
      assert (['\''] + tail)[2..] == "";
    } else {
      assert tail[0] != '\'';
    }
  }

  predicate IsSuffix(part: string, whole: string) {
    |part| <= |whole| && whole[|whole| - |part|..] == part
  }

  /** No value of the text is quoted, but for an empty one at its end. */
  predicate NoneQuoted(s: string) {
    forall i :: 0 <= i < |s| - 2 && s[i] == '=' ==> s[i + 1] != '\''
  }

  predicate Unquoted(s: string) {
    NoneQuoted(s) && (s != "" ==> !IsSpace(s[|s| - 1]))
  }

  lemma SuffixIsUnquoted(s: string, i: nat)
    requires Unquoted(s) && i <= |s|
    ensures Unquoted(s[i..]) && IsSuffix(s[i..], s)
  {
    var t := s[i..];
    forall j | 0 <= j < |t| - 2 && t[j] == '=' ensures t[j + 1] != '\'' {
      assert s[i + j] == '=';
    }
  }

  lemma SuffixOfSuffix(part: string, middle: string, whole: string)
    requires IsSuffix(part, middle) && IsSuffix(middle, whole)
    ensures IsSuffix(part, whole)
  {
    assert whole[|whole| - |part|..] == whole[|whole| - |middle|..][|middle| - |part|..];
  }

  lemma UnquotedValue(s: string)
    requires s == "" || s == "'" || s[0] != '\''
    ensures var (value, after) := ValueOf(s); IsSuffix(after, s) && (after == "" ==> value == "" || value == s)
  {
    if s == "'" {
      assert ValueOf(s) == ("", "") by {
        assert s[1..] == "";
      }
    } else {
      var n := TokenEnd(s);
      assert ValueOf(s) == (s[..n], s[n..]);
    }
  }

  lemma AfterEquals(t: string, j: nat)
    requires Unquoted(t) && j < |t| && t[j] == '='
    ensures var first := t[j + 1..];
            Unquoted(first) && IsSuffix(first, t) && (first == "" || first == "'" || first[0] != '\'')
  {
    var first := t[j + 1..];
    SuffixIsUnquoted(t, j + 1);
    if |first| == 1 && first[0] == '\'' {
      assert first == "'";
    }
  }

  lemma ValueEnd(first: string)
    requires Unquoted(first) && (first == "" || first == "'" || first[0] != '\'')
    ensures var (value, after) := ValueOf(first);
            IsSuffix(after, first) && Unquoted(after) && (after == "" ==> value == "" || value == first)
  {
    UnquotedValue(first);
    var after := ValueOf(first).1;
    SuffixIsUnquoted(first, |first| - |after|);
  }

  /** The first pair of such a text: what follows it is the end of the text. */
  lemma FirstUnquoted(t: string)
    requires Unquoted(t) && FirstPair(t).Some?
    ensures var (key, value, after) := FirstPair(t).value;
            && '=' in t && IsSuffix(after, t) && |after| < |t| && Unquoted(after)
            && (after == "" ==> value == "" || IsSuffix(value, t))
  {
    var j := IndexOf(t, '=');
    AfterEquals(t, j);
    ValueEnd(t[j + 1..]);
    SuffixOfSuffix(ValueOf(t[j + 1..]).1, t[j + 1..], t);
  }

  lemma {:induction false} StripsToSuffix(s: string)
    requires s != "" && !IsSpace(s[|s| - 1])
    ensures LeftStrip(s) != "" && IsSuffix(LeftStrip(s), s)
  {
    if IsSpace(s[0]) {
      StripsToSuffix(s[1..]);
      SuffixOfSuffix(LeftStrip(s), s[1..], s);
    }
  }

  /** The last value of such a text is empty or reaches to its end. */
  lemma {:induction false} LastValue(s: string, out: map<string, string>) returns (k: string)
    requires Unquoted(s) && s != "" && ScanInto(s, out).Some?
    ensures '=' in s
    ensures var m := ScanInto(s, out).value; k in m && (m[k] == "" || IsSuffix(m[k], s))
    decreases |s|
  {
    LeftStripIsShorter(s);
    StripsToSuffix(s);
    var t := LeftStrip(s);
    SuffixIsUnquoted(s, |s| - |t|);
    FirstUnquoted(t);
    var (key, value, after) := FirstPair(t).value;
    SuffixOfSuffix(after, t, s);
    if after == "" {
      k := key;
      if value != "" {
        SuffixOfSuffix(value, t, s);
      }
    } else {
      k := LastValue(after, out[key := value]);
      var last := ScanInto(after, out[key := value]).value[k];
      if last != "" {
        SuffixOfSuffix(last, after, s);
      }
    }
  }

  lemma {:induction false} BackslashedIsUnquoted(b: string)
    requires b != ""
    ensures Unquoted(Backslashed(b) + "'")
  {
    var t := Backslashed(b) + "'";
    forall i | 0 <= i < |t| - 2 && t[i] == '=' ensures t[i + 1] != '\'' {
      if i + 1 < |Backslashed(b)| {
        QuotesAreEscaped(b, i + 1);
      }
    }
  }

  /** Every quote has a backslash before it. */
  lemma {:induction false} QuotesAreEscaped(b: string, i: nat)
    requires i < |Backslashed(b)|
    ensures Backslashed(b)[i] == '\'' ==> i > 0 && Backslashed(b)[i - 1] == '\\'
  {
    var e := if b[0] == '\'' || b[0] == '\\' then 2 else 1;
    if i >= e {
      assert Backslashed(b)[e..] == Backslashed(b[1..]);
      assert Backslashed(b)[i] == Backslashed(b[1..])[i - e];
      QuotesAreEscaped(b[1..], i - e);
    }
  }

  // the text after the last equals sign tells a value from a text that holds it escaped

  function LastField(s: string): string {
    if '=' !in s then s else LastField(s[1..])
  }

  lemma {:induction false} FieldOfSuffix(before: string, s: string)
    requires '=' in s
    ensures LastField(before + s) == LastField(s)
  {
    if before == "" {
      assert before + s == s;
    } else {
      assert '=' in before + s && (before + s)[1..] == before[1..] + s;
      FieldOfSuffix(before[1..], s);
    }
  }

  lemma {:induction false} EqualsSignsStay(s: string)
    ensures '=' in Backslashed(s) <==> '=' in s
    ensures |Backslashed(s)| >= |s|
  {
    if s != "" {
      EqualsSignsStay(s[1..]);
      assert s == [s[0]] + s[1..];
    }
  }

  lemma {:induction false} FieldOfBackslashed(s: string)
    requires '=' in s
    ensures LastField(Backslashed(s) + "'") == Backslashed(LastField(s)) + "'"
  {
    var e := if s[0] == '\'' || s[0] == '\\' then ['\\', s[0]] else [s[0]];
    var tail := Backslashed(s[1..]) + "'";
    assert Backslashed(s) + "'" == e + tail;
    assert s == [s[0]] + s[1..];
    EqualsSignsStay(s[1..]);
    if '=' in s[1..] {
      FieldOfBackslashed(s[1..]);
      FieldOfSuffix(e, tail);
    } else {
      assert (e + tail)[1..] == tail && '=' !in tail && '=' in e + tail;
    }
  }

  /** A text with an equals sign is no suffix of its own escaped form with a closing quote. */
  lemma EscapedIsLonger(s: string)
    requires '=' in s
    ensures !IsSuffix(s, Backslashed(s) + "'")
  {
    var t := Backslashed(s) + "'";
    if IsSuffix(s, t) {
      assert t == t[..|t| - |s|] + s;
      FieldOfSuffix(t[..|t| - |s|], s);
      FieldOfBackslashed(s);
      EqualsSignsStay(LastField(s));
    }
  }

  lemma {:induction false} BackslashedSplits(a: string, b: string)
    ensures Backslashed(a + b) == Backslashed(a) + Backslashed(b)
  {
    if a == "" {
      assert a + b == b;
    } else {
      assert (a + b)[1..] == a[1..] + b;
      BackslashedSplits(a[1..], b);
    }
  }

  lemma SumHasSuffix(a: string, b: string, c: string)
    ensures a + b + c == a + (b + c) && IsSuffix(b + c, a + b + c)
  {
  }

  lemma EscapedSuffix(a: string, b: string)
    ensures IsSuffix(Backslashed(b) + "'", Backslashed(a + b) + "'")
  {
    BackslashedSplits(a, b);
    SumHasSuffix(Backslashed(a), Backslashed(b), "'");
  }

  lemma RestIsSuffix(s: string, n: nat)
    requires n <= |s|
    ensures IsSuffix(Backslashed(s[n..]) + "'", Backslashed(s) + "'")
  {
    assert s == s[..n] + s[n..];
    EscapedTail(s, s[..n], s[n..]);
  }

  lemma EscapedTail(s: string, a: string, b: string)
    requires s == a + b
    ensures IsSuffix(Backslashed(b) + "'", Backslashed(s) + "'")
  {
    EscapedSuffix(a, b);
  }

  /** The rest of a value with a quote never gives a key the value itself. */
  lemma RestNeverGivesValue(s: string, n: nat, key: string, out: map<string, string>)
    requires n < |s|
    ensures ScanInto(Backslashed(s[n..]) + "'", out) != Some(map[key := s])
  {
    var rest := Backslashed(s[n..]) + "'";
    if ScanInto(rest, out) == Some(map[key := s]) {
      BackslashedIsUnquoted(s[n..]);
      var k := LastValue(rest, out);
      RestIsSuffix(s, n);
      NoSuchSuffix(s, n, rest);
    }
  }

  lemma NoSuchSuffix(s: string, n: nat, rest: string)
    requires n < |s| && rest == Backslashed(s[n..]) + "'" && '=' in rest && IsSuffix(rest, Backslashed(s) + "'")
    ensures !IsSuffix(s, rest)
  {
    EqualsSignsStay(s[n..]);
    EscapedIsLonger(s);
    if IsSuffix(s, rest) {
      SuffixOfSuffix(s, rest, Backslashed(s) + "'");
    }
  }

  /** A pair with any text in quotes after its equals sign. */
  function QuotedPair(key: string, body: string): (s: string)
    ensures |s| == |key| + 2 + |body|
  {
    key + ("='" + body)
  }

  lemma QuotedPairSplits(key: string, body: string)
    requires '=' !in key
    ensures var s := QuotedPair(key, body);
            IndexOf(s, '=') == |key| && s[..|key|] == key && s[|key| + 1..] == "'" + body
  {
    var s := QuotedPair(key, body);
    assert s[..|key|] == key && s[|key|] == '=';
    IndexOfUnique(s, '=', |key|);
  }

  lemma QuotedPairScans(key: string, body: string)
    requires Canonical(key)
    ensures FirstPair(QuotedPair(key, body)) == Some((key, Quoted(body).0, Quoted(body).1))
  {
    QuotedPairSplits(key, body);
    TrimmedIsFixed(key);
    assert ("'" + body)[1..] == body;
  }

  lemma QuotedPairIsTrimmed(key: string, body: string)
    requires Canonical(key) && body != "" && !IsSpace(body[|body| - 1])
    ensures Strip(QuotedPair(key, body)) == QuotedPair(key, body) == LeftStrip(QuotedPair(key, body))
  {
    var s := QuotedPair(key, body);
    assert s[0] == if key == "" then '=' else key[0];
    assert s[|s| - 1] == body[|body| - 1];
    TrimmedIsFixed(s);
  }

  /** Parsing one such pair: its value, and then what is left. */
  lemma QuotedPairParses(key: string, body: string, value: string, rest: string)
    requires Canonical(key) && body != "" && !IsSpace(body[|body| - 1]) && Quoted(body) == (value, rest)
    ensures Parsed(QuotedPair(key, body)) == ScanInto(rest, map[key := value])
  {
    QuotedPairIsTrimmed(key, body);
    QuotedPairScans(key, body);
  }

  function FirstValue(s: string): string {
    Quoted(Backslashed(s) + "'").0
  }

  /** What is left of the value after its first quote. */
  function RestAfter(s: string): string {
    var q := IndexOf(s, '\'');
    if q + 1 < |s| then Backslashed(s[q + 1..]) + "'" else ""
  }

  lemma EscapedSplits(s: string)
    ensures Quoted(Backslashed(s) + "'") == (FirstValue(s), RestAfter(s))
  {
    RestOfBackslashed(s);
  }

  /** A pair whose value is quoted by libpq's own rule is read back exactly when the value holds no quote and no
      backslash. */
  lemma LibpqEscapesAreNotUndone(key: string, s: string)
    requires Canonical(key)
    ensures Parsed(QuotedPair(key, Backslashed(s) + "'")) == Some(map[key := s]) <==> '\'' !in s && '\\' !in s
  {
    EscapedSplits(s);
    QuotedPairParses(key, Backslashed(s) + "'", FirstValue(s), RestAfter(s));
    FirstValueIsKept(s);
    RestDecides(s, key, FirstValue(s));
  }

  lemma RestDecides(s: string, key: string, value: string)
    requires value == s ==> '\'' !in s
    ensures ScanInto(RestAfter(s), map[key := value]) == Some(map[key := s]) <==> value == s
  {
    var q := IndexOf(s, '\'');
    if q + 1 < |s| {
      RestNeverGivesValue(s, q + 1, key, map[key := value]);
    } else {
      NothingLeft(key, value, s);
    }
  }

  lemma NothingLeft(key: string, value: string, s: string)
    ensures ScanInto("", map[key := value]) == Some(map[key := s]) <==> value == s
  {
    assert map[key := value][key] == value && map[key := s][key] == s;
  }
}
