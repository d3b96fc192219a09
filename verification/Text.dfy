/** The string operations of the Python runtime that the modelled code relies on. */
module Text {

  /** The characters for which `str.isspace()` holds; `str.strip()` and the regex class `\s` use the same set. */
  predicate IsSpace(c: char) {
    || '\U{9}' <= c <= '\U{D}'
    || '\U{1C}' <= c <= '\U{20}'
    || c == '\U{85}' || c == '\U{A0}' || c == '\U{1680}'
    || '\U{2000}' <= c <= '\U{200A}'
    || c == '\U{2028}' || c == '\U{2029}' || c == '\U{202F}' || c == '\U{205F}' || c == '\U{3000}'
  }

  function LeftStrip(s: string): (r: string) {
    if s != "" && IsSpace(s[0]) then LeftStrip(s[1..]) else s
  }

  function RightStrip(s: string): (r: string) {
    if s != "" && IsSpace(s[|s| - 1]) then RightStrip(s[..|s| - 1]) else s
  }

  function Strip(s: string): (r: string) {
    RightStrip(LeftStrip(s))
  }

  /** No white space at either end: the fixed points of `Strip`. */
  predicate Trimmed(s: string) {
    s == "" || (!IsSpace(s[0]) && !IsSpace(s[|s| - 1]))
  }

  lemma LeftStripSlice(s: string) returns (a: nat)
    ensures a <= |s| && LeftStrip(s) == s[a..]
    ensures LeftStrip(s) == "" || !IsSpace(LeftStrip(s)[0])
  {
    if s != "" && IsSpace(s[0]) {
      var b := LeftStripSlice(s[1..]);
      a := b + 1;
    } else {
      a := 0;
    }
  }

  lemma RightStripSlice(s: string) returns (b: nat)
    ensures b <= |s| && RightStrip(s) == s[..b]
    ensures RightStrip(s) == "" || !IsSpace(RightStrip(s)[|RightStrip(s)| - 1])
  {
    if s != "" && IsSpace(s[|s| - 1]) {
      b := RightStripSlice(s[..|s| - 1]);
    } else {
      b := |s|;
    }
  }

  /** Stripping keeps one contiguous piece of the text and leaves it trimmed. */
  lemma StripSlice(s: string) returns (a: nat, b: nat)
    ensures a <= b <= |s| && Strip(s) == s[a..b]
    ensures Trimmed(Strip(s))
  {
    a := LeftStripSlice(s);
    var c := RightStripSlice(LeftStrip(s));
    b := a + c;
  }

  predicate AllSpace(s: string) {
    forall i :: 0 <= i < |s| ==> IsSpace(s[i])
  }

  lemma {:induction false} LeftStripDrops(left: string, s: string)
    requires AllSpace(left) && (s == "" || !IsSpace(s[0]))
    ensures LeftStrip(left + s) == s
  {
    if left == "" {
      assert left + s == s;
    } else {
      assert (left + s)[1..] == left[1..] + s;
      LeftStripDrops(left[1..], s);
    }
  }

  lemma {:induction false} RightStripDrops(s: string, right: string)
    requires AllSpace(right) && (s == "" || !IsSpace(s[|s| - 1]))
    ensures RightStrip(s + right) == s
  {
    if right == "" {
      assert s + right == s;
    } else {
      assert (s + right)[..|s + right| - 1] == s + right[..|right| - 1];
      RightStripDrops(s, right[..|right| - 1]);
    }
  }

  /** Stripping drops the white space at both ends and nothing else. */
  lemma StripDrops(left: string, s: string, right: string)
    requires AllSpace(left) && Trimmed(s) && AllSpace(right)
    ensures Strip(left + s + right) == s
  {
    if s == "" {
      assert left + s + right == (left + right) + "";
      LeftStripDrops(left + right, "");
    } else {
      assert left + s + right == left + (s + right);
      LeftStripDrops(left, s + right);
      RightStripDrops(s, right);
    }
  }

  lemma TrimmedIsFixed(s: string)
    requires Trimmed(s)
    ensures Strip(s) == s
  {
  }

  lemma StripTwice(s: string)
    ensures Strip(Strip(s)) == Strip(s)
  {
    var a, b := StripSlice(s);
    TrimmedIsFixed(Strip(s));
  }

  /** A character outside the text is not in its stripped form either. */
  lemma StripKeepsOut(s: string, c: char)
    requires c !in s
    ensures c !in Strip(s)
  {
    var a, b := StripSlice(s);
  }

  /** Position of the first `c` in `s`, or the length of `s` when there is none. */
  function IndexOf(s: string, c: char): (i: nat)
    ensures i <= |s|
    ensures i < |s| ==> s[i] == c
    ensures forall j :: 0 <= j < i ==> s[j] != c
  {
    if s == "" || s[0] == c then 0 else 1 + IndexOf(s[1..], c)
  }

  /** `IndexOf` is the only position with its property. */
  lemma IndexOfUnique(s: string, c: char, i: nat)
    requires i <= |s|
    requires i < |s| ==> s[i] == c
    requires forall j :: 0 <= j < i ==> s[j] != c
    ensures IndexOf(s, c) == i
  {
  }

  predicate StartsWith(s: string, prefix: string) {
    |prefix| <= |s| && s[..|prefix|] == prefix
  }

  predicate EndsWith(s: string, suffix: string) {
    |suffix| <= |s| && s[|s| - |suffix|..] == suffix
  }

  /** `str.lower` on ASCII letters. */
  function LowerChar(c: char): char {
    if 'A' <= c <= 'Z' then c - 'A' + 'a' else c
  }

  function Lower(s: string): (r: string)
    ensures |r| == |s| && forall i :: 0 <= i < |s| ==> r[i] == LowerChar(s[i])
  {
    if s == "" then "" else [LowerChar(s[0])] + Lower(s[1..])
  }

  lemma LowerCharKeeps(c: char)
    ensures LowerChar(LowerChar(c)) == LowerChar(c)
    ensures IsSpace(LowerChar(c)) == IsSpace(c)
    ensures (LowerChar(c) == '=') == (c == '=')
  {
  }

  lemma {:induction false} LowerLeftStrips(s: string)
    ensures Lower(LeftStrip(s)) == LeftStrip(Lower(s))
  {
    if s != "" {
      LowerCharKeeps(s[0]);
      assert Lower(s)[1..] == Lower(s[1..]);
      LowerLeftStrips(s[1..]);
    }
  }

  lemma {:induction false} LowerRightStrips(s: string)
    ensures Lower(RightStrip(s)) == RightStrip(Lower(s))
  {
    if s != "" {
      LowerCharKeeps(s[|s| - 1]);
      assert Lower(s)[..|s| - 1] == Lower(s[..|s| - 1]);
      LowerRightStrips(s[..|s| - 1]);
    }
  }

  lemma LowerStrips(s: string)
    ensures Lower(Strip(s)) == Strip(Lower(s))
  {
    LowerLeftStrips(s);
    LowerRightStrips(LeftStrip(s));
  }

  /** `s.strip()[:128]`, the form in which ids are stored. */
  function Cleaned(s: string): (r: string) {
    var r := Strip(s);
    if |r| <= 128 then r else r[..128]
  }

  /** Cleaning drops the white space around a text and what is past its first 128 characters. */
  lemma CleanedKeeps(left: string, s: string, right: string)
    requires AllSpace(left) && Trimmed(s) && AllSpace(right)
    ensures Cleaned(left + s + right) == if |s| > 128 then s[..128] else s
  {
    StripDrops(left, s, right);
  }

  /** Cleaning twice changes nothing more, unless the cut at 128 characters left white space at the end. */
  lemma CleanedTwice(s: string)
    ensures Cleaned(Cleaned(s)) == Cleaned(s) <==> (|Strip(s)| <= 128 || !IsSpace(Strip(s)[127]))
  {
    var a, b := StripSlice(s);
    var r := Cleaned(s);
    if |Strip(s)| <= 128 || !IsSpace(Strip(s)[127]) {
      TrimmedIsFixed(r);
    } else {
      var c, d := StripSlice(r);
      assert r[127] == Strip(s)[127];
      assert !Trimmed(r);
    }
  }
}
