/** What the deploy environment file says: the text of its lines, their order, and what any line is read as. */
module EnvFileOutcomes {
  import opened Wrappers
  import opened Text
  import opened Sorting
  import opened EnvFile

  // ---------------------------------------------------------------- values

  /** One character of a quoted value, written with or without a backslash before it. */
  datatype Piece = Piece(c: char, escaped: bool)

  function Spelled(pieces: seq<Piece>): string {
    if pieces == [] then ""
    else (if pieces[0].escaped then ['\\', pieces[0].c] else [pieces[0].c]) + Spelled(pieces[1..])
  }

  function Meant(pieces: seq<Piece>): string {
    if pieces == [] then "" else [pieces[0].c] + Meant(pieces[1..])
  }

  predicate Plain(pieces: seq<Piece>) {
    forall i :: 0 <= i < |pieces| && !pieces[i].escaped ==> pieces[i].c != '\\'
  }

  lemma FirstPieceIsRead(p: Piece, rest: string)
    requires p.escaped || p.c != '\\'
    ensures Unescape((if p.escaped then ['\\', p.c] else [p.c]) + rest) == [p.c] + Unescape(rest)
  {
    if p.escaped {
      assert (['\\', p.c] + rest)[2..] == rest;
    } else {
      assert ([p.c] + rest)[1..] == rest;
    }
  }

  lemma Regrouped(a: string, b: string, c: string)
    ensures a + b + c == a + (b + c)
  {
  }

  /** A backslash stands for the character after it, whichever it is; one at the very end stands for itself. */
  lemma {:induction false} EscapesAreUndone(pieces: seq<Piece>, tail: string)
    requires Plain(pieces) && (tail == "" || tail == "\\")
    ensures Unescape(Spelled(pieces) + tail) == Meant(pieces) + tail
  {
    if pieces == [] {
      assert Spelled(pieces) + tail == tail && Meant(pieces) + tail == tail;
      assert tail != "" ==> tail[1..] == "";
    } else {
      var p := pieces[0];
      EscapesAreUndone(pieces[1..], tail);
      FirstPieceIsRead(p, Spelled(pieces[1..]) + tail);
      Regrouped(if p.escaped then ['\\', p.c] else [p.c], Spelled(pieces[1..]), tail);
      Regrouped([p.c], Meant(pieces[1..]), tail);
    }
  }

  /** White space around a value is dropped, and a pair of double quotes if there is one. */
  lemma ValueOutcome(left: string, value: string, right: string)
    requires AllSpace(left) && Trimmed(value) && AllSpace(right)
    ensures EnvValue(left + value + right)
            == if |value| >= 2 && value[0] == '"' && value[|value| - 1] == '"' then Unescape(value[1..|value| - 1])
               else value
  {
    StripDrops(left, value, right);
  }

  // ---------------------------------------------------------------- lines

  /** A line is passed over exactly when it is blank, a comment, or without an equals sign. */
  lemma PassedOver(left: string, line: string, right: string)
    requires AllSpace(left) && Trimmed(line) && AllSpace(right)
    ensures LineEntry(left + line + right).None? <==> line == "" || line[0] == '#' || '=' !in line
  {
    StripDrops(left, line, right);
  }

  lemma LineParts(key: string, gap: string, rest: string)
    requires '=' !in key && AllSpace(gap)
    ensures var line := key + gap + "=" + rest;
            && IndexOf(line, '=') == |key + gap| && |key + gap| < |line|
            && line[..|key + gap|] == key + gap && line[|key + gap| + 1..] == rest
  {
    var line := key + gap + "=" + rest;
    assert line[|key + gap|] == '=';
    assert forall j :: 0 <= j < |gap| ==> gap[j] != '=';
    IndexOfUnique(line, '=', |key + gap|);
  }

  lemma LineIsTrimmed(key: string, gap: string, rest: string)
    requires Trimmed(key) && (key == "" ==> gap == "") && (key != "" ==> key[0] != '#')
    requires rest == "" || !IsSpace(rest[|rest| - 1])
    ensures var line := key + gap + "=" + rest; line != "" && Trimmed(line) && line[0] != '#'
  {
    var line := key + gap + "=" + rest;
    assert line[0] == if key == "" then '=' else key[0];
    assert line[|line| - 1] == if rest == "" then '=' else rest[|rest| - 1];
  }

  /** Any other line is its key, without the white space around it, and the value of the text after its first equals
      sign. */
  lemma LineOutcome(left: string, key: string, gap: string, rest: string, right: string)
    requires AllSpace(left) && AllSpace(gap) && AllSpace(right)
    requires Trimmed(key) && '=' !in key && (key == "" ==> gap == "") && (key != "" ==> key[0] != '#')
    requires rest == "" || !IsSpace(rest[|rest| - 1])
    ensures LineEntry(left + (key + gap + "=" + rest) + right) == Some((key, EnvValue(rest)))
  {
    LineIsTrimmed(key, gap, rest);
    StripDrops(left, key + gap + "=" + rest, right);
    LineParts(key, gap, rest);
    StripDrops("", key, gap);
    assert "" + key + gap == key + gap;
  }

  lemma BreakIsFound(line: string, lineBreak: string, rest: string)
    requires OneLine(line) && lineBreak != "" && IsLineBreak(lineBreak[0])
    ensures var s := line + lineBreak + rest;
            LineEnd(s) == |line| && s[..|line|] == line && s[|line|] == lineBreak[0]
            && s[|line| + |lineBreak|..] == rest && s[|line| + 1..] == lineBreak[1..] + rest
  {
    var s := line + lineBreak + rest;
    assert s[|line|] == lineBreak[0];
    assert forall i :: 0 <= i < |line| ==> s[i] == line[i];
  }

  /** A text falls into its lines at every line break; a carriage return and a line feed are one. */
  lemma LineIsSplitOff(line: string, lineBreak: string, rest: string)
    requires OneLine(line)
    requires lineBreak == "\r\n" || (|lineBreak| == 1 && IsLineBreak(lineBreak[0]))
    requires lineBreak == "\r" ==> rest == "" || rest[0] != '\n'
    ensures SplitLines(line + lineBreak + rest) == [line] + SplitLines(rest)
    ensures SplitLines(line) == if line == "" then [] else [line]
  {
    var s := line + lineBreak + rest;
    BreakIsFound(line, lineBreak, rest);
    var after := lineBreak[1..] + rest;
    if |lineBreak| == 2 {
      assert after[0] == '\n' && s[|line| + 1] == after[0];
    } else {
      assert after == rest;
      assert rest != "" ==> s[|line| + 1] == after[0];
    }
    assert LineEnd(line) == |line|;
  }

  /** The last line that defines a key gives its value. */
  lemma {:induction false} LastLineWins(entries: seq<Entry>, key: string, i: nat)
    requires i < |entries| && entries[i].Some? && entries[i].value.0 == key
    requires forall j :: i < j < |entries| && entries[j].Some? ==> entries[j].value.0 != key
    ensures key in Merged(entries) && Merged(entries)[key] == entries[i].value.1
  {
    if i < |entries| - 1 {
      LastLineWins(entries[..|entries| - 1], key, i);
    }
  }

  /** Only defined keys are in the dictionary. */
  lemma {:induction false} OnlyDefinedKeys(entries: seq<Entry>, key: string)
    ensures key in Merged(entries) <==> exists i :: 0 <= i < |entries| && entries[i].Some? && entries[i].value.0 == key
  {
    if entries != [] {
      var n := |entries| - 1;
      OnlyDefinedKeys(entries[..n], key);
      if key in Merged(entries[..n]) {
        var i :| 0 <= i < n && entries[..n][i].Some? && entries[..n][i].value.0 == key;
        assert entries[i].Some? && entries[i].value.0 == key;
      }
      if i: nat :| i < n && entries[i].Some? && entries[i].value.0 == key {
        assert entries[..n][i].Some? && entries[..n][i].value.0 == key;
      }
    }
  }

  // ---------------------------------------------------------------- written lines

  /** The text without carriage returns and line feeds. */
  function Unbroken(s: string): string {
    if s == "" then "" else (if s[0] == '\r' || s[0] == '\n' then "" else [s[0]]) + Unbroken(s[1..])
  }

  lemma {:induction false} TwoReplaces(s: string)
    ensures Replace(Replace(s, '\r', ""), '\n', "") == Unbroken(s)
  {
    if s != "" {
      var rest := Replace(s[1..], '\r', "");
      TwoReplaces(s[1..]);
      assert "" + rest == rest;
      if s[0] != '\r' {
        assert ([s[0]] + rest)[1..] == rest;
      }
    }
  }

  /** The line of a key: its value in double quotes, with a backslash before every backslash and quote, and without
      carriage returns and line feeds. */
  lemma WrittenLine(key: string, val: string)
    ensures FormatEnvLine(key, val) == key + "=\"" + Escape(Unbroken(val)) + "\"\n"
    ensures GoodKey(key) ==> LineEntry(key + "=\"" + Escape(Unbroken(val)) + "\"") == Some((key, Unbroken(val)))
  {
    TwoReplaces(val);
    ReplacesAreEscape(Unbroken(val));
    if GoodKey(key) {
      LineDefines(key, Unbroken(val));
    }
  }

  lemma {:induction false} UnbrokenExactly(s: string)
    ensures Unbroken(s) == s <==> '\r' !in s && '\n' !in s
    ensures |Unbroken(s)| <= |s|
  {
    if s != "" {
      UnbrokenExactly(s[1..]);
      assert s == [s[0]] + s[1..];
    }
  }

  // ---------------------------------------------------------------- the order of the lines

  /** Both keys are listed, and a stands before b. */
  predicate ListedBefore(a: string, b: string) {
    exists i, j :: 0 <= i < j < |KEY_ORDER| && KEY_ORDER[i] == a && KEY_ORDER[j] == b
  }

  /** Of two written keys the earlier one is listed before the other, or is the only listed one, or comes first in
      lexicographic order. */
  lemma WrittenOrder(keys: seq<string>, data: map<string, string>, i: nat, j: nat)
    requires EmitOrder(keys, data) && i < j < |keys|
    ensures ListedBefore(keys[i], keys[j])
            || (keys[i] in KEY_ORDER && keys[j] !in KEY_ORDER)
            || (keys[i] !in KEY_ORDER && keys[j] !in KEY_ORDER && Less(keys[i], keys[j]))
  {
    var extras :| Lists(extras, Unlisted(data)) && keys == Known(KEY_ORDER, data) + extras;
    var n := |Known(KEY_ORDER, data)|;
    if j < n {
      var a, b := KnownInOrder(KEY_ORDER, data, i, j);
    } else {
      assert keys[j] == extras[j - n] && keys[j] in extras;
      if i < n {
        assert keys[i] in Known(KEY_ORDER, data);
      } else {
        assert keys[i] == extras[i - n] && keys[i] in extras;
      }
    }
  }

  lemma {:induction false} KnownInOrder(order: seq<string>, data: map<string, string>, i: nat, j: nat)
    returns (a: nat, b: nat)
    requires i < j < |Known(order, data)|
    ensures a < b < |order| && order[a] == Known(order, data)[i] && order[b] == Known(order, data)[j]
  {
    var n := |order| - 1;
    var before := Known(order[..n], data);
    if j < |before| {
      a, b := KnownInOrder(order[..n], data, i, j);
    } else {
      assert before[i] in before;
      a :| 0 <= a < n && order[..n][a] == before[i];
      b := n;
    }
  }
}
