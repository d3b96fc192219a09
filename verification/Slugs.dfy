/** URL slugs: how a name becomes one, and how a free one is found. */
module Slugs {
  import opened Text

  // ---------------------------------------------------------------- slugify

  /** Every run of white space becomes one hyphen. */
  function HyphenateSpace(s: string): string {
    if s == "" then ""
    else if !IsSpace(s[0]) then [s[0]] + HyphenateSpace(s[1..])
    else if |s| >= 2 && IsSpace(s[1]) then HyphenateSpace(s[1..])
    else "-" + HyphenateSpace(s[1..])
  }

  predicate SlugChar(c: char) {
    'a' <= c <= 'z' || '0' <= c <= '9' || c == '-'
  }

  function KeepSlugChars(s: string): string {
    if s == "" then "" else (if SlugChar(s[0]) then [s[0]] else "") + KeepSlugChars(s[1..])
  }

  function CollapseHyphens(s: string): string {
    if s == "" then ""
    else if s[0] == '-' && |s| >= 2 && s[1] == '-' then CollapseHyphens(s[1..])
    else [s[0]] + CollapseHyphens(s[1..])
  }

  /** `s.strip("-")`. */
  function StripHyphens(s: string): string
    decreases |s|
  {
    if s == "" then ""
    else if s[0] == '-' then StripHyphens(s[1..])
    else if s[|s| - 1] == '-' then StripHyphens(s[..|s| - 1])
    else s
  }

  function Hyphenated(raw: string): string {
    CollapseHyphens(KeepSlugChars(HyphenateSpace(Lower(Strip(raw)))))
  }

  function SlugifyWorkspaceName(raw: string): string {
    var s := StripHyphens(Hyphenated(raw));
    if |s| <= 128 then s else s[..128]
  }

  predicate AllSlugChars(s: string) {
    forall i :: 0 <= i < |s| ==> SlugChar(s[i])
  }

  predicate SingleHyphens(s: string) {
    forall i :: 0 <= i < |s| - 1 ==> !(s[i] == '-' && s[i + 1] == '-')
  }

  /** Lower-case letters, digits and single hyphens, with none at the start. */
  predicate SlugShaped(s: string) {
    AllSlugChars(s) && SingleHyphens(s) && (s != "" ==> s[0] != '-')
  }

  lemma {:induction false} KeptAreSlugChars(s: string)
    ensures AllSlugChars(KeepSlugChars(s))
  {
    if s != "" {
      KeptAreSlugChars(s[1..]);
    }
  }

  lemma {:induction false} CollapsedHasSingles(s: string)
    requires AllSlugChars(s)
    ensures var r := CollapseHyphens(s);
            AllSlugChars(r) && SingleHyphens(r) && (s == "" <==> r == "") && (s != "" ==> r[0] == s[0])
  {
    if s != "" {
      CollapsedHasSingles(s[1..]);
    }
  }

  lemma {:induction false} StrippedIsSlice(s: string) returns (a: nat, b: nat)
    ensures a <= b <= |s| && StripHyphens(s) == s[a..b]
    ensures StripHyphens(s) != "" ==> s[a] != '-' && s[b - 1] != '-'
    decreases |s|
  {
    a, b := 0, |s|;
    if s != "" && s[0] == '-' {
      a, b := StrippedIsSlice(s[1..]);
      a, b := a + 1, b + 1;
    } else if s != "" && s[|s| - 1] == '-' {
      a, b := StrippedIsSlice(s[..|s| - 1]);
    }
  }

  lemma SliceIsShaped(s: string, a: nat, b: nat)
    requires AllSlugChars(s) && SingleHyphens(s) && a <= b <= |s|
    ensures AllSlugChars(s[a..b]) && SingleHyphens(s[a..b])
  {
  }

  lemma HyphenatedIsShaped(raw: string)
    ensures AllSlugChars(Hyphenated(raw)) && SingleHyphens(Hyphenated(raw))
  {
    var spaced := HyphenateSpace(Lower(Strip(raw)));
    KeptAreSlugChars(spaced);
    CollapsedHasSingles(KeepSlugChars(spaced));
  }

  /** Every slug is well shaped and at most 128 characters long; a hyphen at its end can only come from the cut. */
  lemma SlugIsShaped(raw: string)
    ensures var s := SlugifyWorkspaceName(raw);
            SlugShaped(s) && |s| <= 128 && (s != "" && s[|s| - 1] == '-' ==> |s| == 128)
  {
    var h := Hyphenated(raw);
    HyphenatedIsShaped(raw);
    var a, b := StrippedIsSlice(h);
    var end := if b - a <= 128 then b else a + 128;
    SliceIsShaped(h, a, end);
    assert SlugifyWorkspaceName(raw) == h[a..end];
  }

  lemma {:induction false} ShapedIsFixed(s: string)
    requires AllSlugChars(s) && SingleHyphens(s)
    ensures HyphenateSpace(s) == s && KeepSlugChars(s) == s && CollapseHyphens(s) == s
  {
    if s != "" {
      assert s == [s[0]] + s[1..];
      ShapedIsFixed(s[1..]);
    }
  }

  /** Slugging a slug changes nothing, unless the cut left a hyphen at its end. */
  lemma SlugifyTwice(raw: string)
    ensures var s := SlugifyWorkspaceName(raw);
            SlugifyWorkspaceName(s) == s <==> (s == "" || s[|s| - 1] != '-')
  {
    var s := SlugifyWorkspaceName(raw);
    SlugIsShaped(raw);
    SlugIsShaped(s);
    ShapedIsOnlyCut(s);
    var a, b := StrippedIsSlice(s);
  }

  /** Of a shaped slug, slugging can only change the end. */
  lemma ShapedIsOnlyCut(s: string)
    requires SlugShaped(s)
    ensures Hyphenated(s) == s
  {
    TrimmedIsFixed(s);
    LowerIsFixed(s);
    ShapedIsFixed(s);
  }

  lemma LowerIsFixed(s: string)
    requires AllSlugChars(s)
    ensures Lower(s) == s
  {
    assert forall i :: 0 <= i < |s| ==> LowerChar(s[i]) == s[i];
  }

  // ---------------------------------------------------------------- what a slug holds

  predicate LetterOrDigit(c: char) {
    'a' <= c <= 'z' || '0' <= c <= '9'
  }

  predicate Separator(c: char) {
    IsSpace(c) || c == '-'
  }

  /** The letters and digits of a text in their order, with one hyphen between two of them if and only if white space or
      a hyphen stands between them in the text. `some`: one was met before; `gap`: a separator was met since. */
  function OnePass(s: string, some: bool, gap: bool): string {
    if s == "" then ""
    else if LetterOrDigit(s[0]) then (if some && gap then "-" else "") + [s[0]] + OnePass(s[1..], true, false)
    else OnePass(s[1..], some, gap || Separator(s[0]))
  }

  lemma {:induction false} LeadingGap(s: string, gap: bool)
    ensures OnePass(s, false, gap) == OnePass(s, false, false)
  {
    if s != "" && !LetterOrDigit(s[0]) {
      LeadingGap(s[1..], gap || Separator(s[0]));
      LeadingGap(s[1..], Separator(s[0]));
    }
  }

  lemma {:induction false} TrailingGap(s: string, some: bool, gap: bool)
    requires s != "" && Separator(s[|s| - 1])
    ensures OnePass(s, some, gap) == OnePass(s[..|s| - 1], some, gap)
  {
    if |s| > 1 {
      var t := s[..|s| - 1];
      assert s[1..][..|s| - 2] == t[1..];
      if LetterOrDigit(s[0]) {
        TrailingGap(s[1..], true, false);
      } else {
        TrailingGap(s[1..], some, gap || Separator(s[0]));
      }
    } else {
      assert s[1..] == "" && s[..|s| - 1] == "";
    }
  }

  lemma {:induction false} LeftStripKeepsPass(s: string)
    ensures OnePass(LeftStrip(s), false, false) == OnePass(s, false, false)
  {
    if s != "" && IsSpace(s[0]) {
      LeftStripKeepsPass(s[1..]);
      LeadingGap(s[1..], true);
    }
  }

  lemma {:induction false} RightStripKeepsPass(s: string)
    ensures OnePass(RightStrip(s), false, false) == OnePass(s, false, false)
  {
    if s != "" && IsSpace(s[|s| - 1]) {
      RightStripKeepsPass(s[..|s| - 1]);
      TrailingGap(s, false, false);
    }
  }

  lemma {:induction false} HyphenateKeepsPass(s: string, some: bool, gap: bool)
    ensures OnePass(HyphenateSpace(s), some, gap) == OnePass(s, some, gap)
  {
    if s != "" {
      var h := HyphenateSpace(s[1..]);
      HyphenateKeepsPass(s[1..], some, gap);
      HyphenateKeepsPass(s[1..], true, false);
      HyphenateKeepsPass(s[1..], some, gap || Separator(s[0]));
      assert ([s[0]] + h)[1..] == h && ("-" + h)[1..] == h;
      assert |s| >= 2 ==> s[1..][0] == s[1] && s[1..][1..] == s[2..];
    }
  }

  lemma {:induction false} HyphenateLeavesNoSpace(s: string)
    ensures forall c :: c in HyphenateSpace(s) ==> !IsSpace(c)
  {
    if s != "" {
      HyphenateLeavesNoSpace(s[1..]);
    }
  }

  lemma {:induction false} KeepKeepsPass(s: string, some: bool, gap: bool)
    requires forall c :: c in s ==> !IsSpace(c)
    ensures OnePass(KeepSlugChars(s), some, gap) == OnePass(s, some, gap)
  {
    if s != "" {
      var k := KeepSlugChars(s[1..]);
      KeepKeepsPass(s[1..], true, false);
      KeepKeepsPass(s[1..], some, gap || Separator(s[0]));
      assert ([s[0]] + k)[1..] == k && "" + k == k;
      assert s[0] in s;
    }
  }

  lemma {:induction false} CollapseKeepsPass(s: string, some: bool, gap: bool)
    ensures OnePass(CollapseHyphens(s), some, gap) == OnePass(s, some, gap)
  {
    if s != "" {
      var c := CollapseHyphens(s[1..]);
      CollapseKeepsPass(s[1..], some, gap);
      CollapseKeepsPass(s[1..], true, false);
      CollapseKeepsPass(s[1..], some, gap || Separator(s[0]));
      assert ([s[0]] + c)[1..] == c;
      assert |s| >= 2 ==> s[1..][0] == s[1] && s[1..][1..] == s[2..];
    }
  }

  lemma {:induction false} StripKeepsPass(s: string)
    ensures OnePass(StripHyphens(s), false, false) == OnePass(s, false, false)
    decreases |s|
  {
    if s != "" && s[0] == '-' {
      StripKeepsPass(s[1..]);
      LeadingGap(s[1..], true);
    } else if s != "" && s[|s| - 1] == '-' {
      StripKeepsPass(s[..|s| - 1]);
      TrailingGap(s, false, false);
    }
  }

  /** A well shaped text without a hyphen at its end goes through unchanged. */
  lemma {:induction false} ShapedPasses(s: string, some: bool)
    requires AllSlugChars(s) && SingleHyphens(s) && (s != "" ==> s[|s| - 1] != '-')
    requires !some && s != "" ==> s[0] != '-'
    ensures OnePass(s, some, false) == s
  {
    if s != "" {
      if s[0] != '-' {
        ShapedPasses(s[1..], true);
        assert "" + [s[0]] + s[1..] == s;
      } else {
        ShapedPasses(s[2..], true);
        assert s[1..][1..] == s[2..] && s[1..][0] == s[1];
        assert "-" + [s[1]] + s[2..] == s;
      }
    }
  }

  lemma HyphenatedPass(name: string)
    ensures OnePass(Hyphenated(name), false, false) == OnePass(Lower(name), false, false)
  {
    var lowered := Lower(Strip(name));
    var spaced := HyphenateSpace(lowered);
    LoweredPass(name);
    HyphenateKeepsPass(lowered, false, false);
    HyphenateLeavesNoSpace(lowered);
    KeepKeepsPass(spaced, false, false);
    CollapseKeepsPass(KeepSlugChars(spaced), false, false);
  }

  lemma StrippedPasses(h: string)
    requires AllSlugChars(h) && SingleHyphens(h)
    ensures StripHyphens(h) == OnePass(h, false, false)
  {
    var a, b := StrippedIsSlice(h);
    SliceIsShaped(h, a, b);
    ShapedPasses(StripHyphens(h), false);
    StripKeepsPass(h);
  }

  /** A slug is what one pass over the name in lower case gives, cut at 128 characters. */
  lemma SlugIsOnePass(name: string)
    ensures var all := OnePass(Lower(name), false, false);
            SlugifyWorkspaceName(name) == if |all| <= 128 then all else all[..128]
  {
    HyphenatedIsShaped(name);
    StrippedPasses(Hyphenated(name));
    HyphenatedPass(name);
  }

  /** Stripping before or after taking the lower case makes no difference. */
  lemma LoweredPass(name: string)
    ensures OnePass(Lower(Strip(name)), false, false) == OnePass(Lower(name), false, false)
  {
    LowerStrips(name);
    LeftStripKeepsPass(Lower(name));
    RightStripKeepsPass(LeftStrip(Lower(name)));
  }

  /** Words, each with a gap before it, and a tail. */
  function Spelled(words: seq<string>, gaps: seq<string>, tail: string): string
    requires |gaps| == |words|
  {
    if words == [] then tail else gaps[0] + (words[0] + Spelled(words[1..], gaps[1..], tail))
  }

  function WithHyphens(words: seq<string>): string {
    if words == [] then ""
    else if |words| == 1 then words[0]
    else words[0] + ("-" + WithHyphens(words[1..]))
  }

  /** Letters and digits, in upper or lower case. */
  predicate IsWord(s: string) {
    s != "" && forall i :: 0 <= i < |s| ==> LetterOrDigit(LowerChar(s[i]))
  }

  predicate IsGap(s: string) {
    forall i :: 0 <= i < |s| ==> Separator(s[i])
  }

  lemma {:induction false} GapPass(gap: string, rest: string, some: bool, before: bool)
    requires IsGap(gap)
    ensures OnePass(Lower(gap + rest), some, before) == OnePass(Lower(rest), some, before || gap != "")
  {
    if gap == "" {
      assert gap + rest == rest;
    } else {
      var s := Lower(gap + rest);
      assert s[1..] == Lower(gap[1..] + rest);
      LowerCharKeeps(gap[0]);
      GapPass(gap[1..], rest, some, true);
    }
  }

  lemma {:induction false} WordPass(word: string, rest: string, some: bool, before: bool)
    requires IsWord(word)
    ensures OnePass(Lower(word + rest), some, before)
            == (if some && before then "-" else "") + Lower(word) + OnePass(Lower(rest), true, false)
  {
    var s := Lower(word + rest);
    var dash := if some && before then "-" else "";
    assert s[0] == LowerChar(word[0]) && s[1..] == Lower(word[1..] + rest);
    assert Lower(word) == [s[0]] + Lower(word[1..]);
    if |word| == 1 {
      assert word[1..] + rest == rest;
    } else {
      WordPass(word[1..], rest, true, false);
      JoinThree(dash, [s[0]], Lower(word[1..]), OnePass(Lower(rest), true, false));
    }
  }

  lemma JoinThree(a: string, b: string, c: string, d: string)
    ensures a + b + ("" + c + d) == a + (b + c) + d
  {
  }

  lemma {:induction false} SpelledPass(words: seq<string>, gaps: seq<string>, tail: string, some: bool)
    requires |gaps| == |words| && IsGap(tail)
    requires forall i :: 0 <= i < |words| ==> IsWord(words[i]) && IsGap(gaps[i]) && (i > 0 || some ==> gaps[i] != "")
    ensures OnePass(Lower(Spelled(words, gaps, tail)), some, false)
            == (if some && words != [] then "-" else "") + Lower(WithHyphens(words))
    decreases |words|
  {
    if words == [] {
      GapPass(tail, "", some, false);
      assert tail + "" == tail;
    } else {
      var rest := Spelled(words[1..], gaps[1..], tail);
      FirstWordPass(gaps[0], words[0], rest, some);
      SpelledPass(words[1..], gaps[1..], tail, true);
      HyphensCons(words);
      Regrouped(if some then "-" else "", Lower(words[0]),
                (if words[1..] != [] then "-" else "") + Lower(WithHyphens(words[1..])));
    }
  }

  lemma FirstWordPass(gap: string, word: string, rest: string, some: bool)
    requires IsGap(gap) && IsWord(word) && (some ==> gap != "")
    ensures OnePass(Lower(gap + (word + rest)), some, false)
            == (if some then "-" else "") + Lower(word) + OnePass(Lower(rest), true, false)
  {
    GapPass(gap, word + rest, some, false);
    WordPass(word, rest, some, gap != "");
  }

  lemma Regrouped(a: string, b: string, c: string)
    ensures a + b + c == a + (b + c)
  {
  }

  lemma HyphensCons(words: seq<string>)
    requires words != []
    ensures Lower(WithHyphens(words))
            == Lower(words[0]) + ((if words[1..] != [] then "-" else "") + Lower(WithHyphens(words[1..])))
  {
    if |words| > 1 {
      LowerJoins(words[0], "-" + WithHyphens(words[1..]));
      LowerJoins("-", WithHyphens(words[1..]));
      assert Lower("-") == "-";
    } else {
      assert words[1..] == [];
    }
  }

  lemma LowerJoins(a: string, b: string)
    ensures Lower(a + b) == Lower(a) + Lower(b)
  {
  }

  /** The slug of a name of words, set apart by any white space and hyphens, is the words in lower case with one hyphen
      between them, cut at 128 characters. */
  lemma SlugOfWords(words: seq<string>, gaps: seq<string>, tail: string)
    requires |gaps| == |words| && IsGap(tail)
    requires forall i :: 0 <= i < |words| ==> IsWord(words[i]) && IsGap(gaps[i]) && (i > 0 ==> gaps[i] != "")
    ensures var all := Lower(WithHyphens(words));
            SlugifyWorkspaceName(Spelled(words, gaps, tail)) == if |all| <= 128 then all else all[..128]
  {
    SpelledPass(words, gaps, tail, false);
    SlugIsOnePass(Spelled(words, gaps, tail));
    assert "" + Lower(WithHyphens(words)) == Lower(WithHyphens(words));
  }

  lemma {:induction false} NothingPasses(s: string, some: bool, gap: bool)
    ensures OnePass(s, some, gap) == "" <==> forall i :: 0 <= i < |s| ==> !LetterOrDigit(s[i])
  {
    if s != "" && !LetterOrDigit(s[0]) {
      NothingPasses(s[1..], some, gap || Separator(s[0]));
      assert forall i :: 0 < i < |s| ==> s[i] == s[1..][i - 1];
    }
  }

  /** The fallbacks "workspace" and "user" are for names without any letter or digit. */
  lemma FallbacksExactly(name: string)
    ensures (forall i :: 0 <= i < |name| ==> !LetterOrDigit(LowerChar(name[i]))) ==>
              WorkspaceBase(name) == "workspace" && UserBase(name) == "user"
    ensures (exists i :: 0 <= i < |name| && LetterOrDigit(LowerChar(name[i]))) ==>
              WorkspaceBase(name) == UserBase(name) == SlugifyWorkspaceName(name) != ""
  {
    SlugIsOnePass(name);
    NothingPasses(Lower(name), false, false);
    var all := OnePass(Lower(name), false, false);
    if exists i :: 0 <= i < |name| && LetterOrDigit(LowerChar(name[i])) {
      var i :| 0 <= i < |name| && LetterOrDigit(LowerChar(name[i]));
      assert LetterOrDigit(Lower(name)[i]);
      assert all != "";
    }
  }

  // ---------------------------------------------------------------- candidates

  function Digit(d: nat): char
    requires d < 10
  {
    "0123456789"[d]
  }

  function Decimal(n: nat): (r: string)
    ensures |r| >= 1 && (|r| == 1 <==> n < 10)
  {
    if n < 10 then [Digit(n)] else Decimal(n / 10) + [Digit(n % 10)]
  }

  lemma DigitIsInjective(d: nat, e: nat)
    requires d < 10 && e < 10 && Digit(d) == Digit(e)
    ensures d == e
  {
  }

  lemma {:induction false} DecimalIsInjective(m: nat, n: nat)
    requires Decimal(m) == Decimal(n)
    ensures m == n
  {
    var a, b := Decimal(m), Decimal(n);
    assert a[|a| - 1] == Digit(m % 10) && b[|b| - 1] == Digit(n % 10);
    DigitIsInjective(m % 10, n % 10);
    if m >= 10 {
      assert a[..|a| - 1] == Decimal(m / 10) && b[..|b| - 1] == Decimal(n / 10);
      DecimalIsInjective(m / 10, n / 10);
    }
  }

  function NumberOf(s: string): int {
    if s == "" then 0 else 10 * NumberOf(s[..|s| - 1]) + (s[|s| - 1] as int - '0' as int)
  }

  /** The digits of a number read as that number, with no zero in front. */
  lemma {:induction false} DecimalReads(n: nat)
    ensures var s := Decimal(n);
            NumberOf(s) == n && (forall i :: 0 <= i < |s| ==> '0' <= s[i] <= '9') && (n > 0 ==> s[0] != '0')
  {
    var s := Decimal(n);
    DigitReads(n % 10);
    if n >= 10 {
      DecimalReads(n / 10);
      assert s[..|s| - 1] == Decimal(n / 10);
    } else {
      assert s[..0] == "";
    }
  }

  lemma DigitReads(d: nat)
    requires d < 10
    ensures Digit(d) as int == '0' as int + d
  {
  }

  /** Probe i of the sequence base, base-2, base-3, ... */
  function Candidate(base: string, i: nat): string {
    if i == 0 then base else base + "-" + Decimal(i + 1)
  }

  lemma CandidatesAreDistinct(base: string, i: nat, j: nat)
    requires Candidate(base, i) == Candidate(base, j)
    ensures i == j
  {
    if i > 0 && j > 0 {
      assert Candidate(base, i)[|base| + 1..] == Decimal(i + 1) && Candidate(base, j)[|base| + 1..] == Decimal(j + 1);
      DecimalIsInjective(i + 1, j + 1);
    }
  }

  /** By pigeonhole, at most |taken| probes in a row are taken. */
  lemma {:induction false} TakenProbesRunOut(base: string, taken: set<string>, i: nat)
    requires forall j :: 0 <= j < i ==> Candidate(base, j) in taken
    ensures i <= |taken|
  {
    if i > 0 {
      var last := Candidate(base, i - 1);
      forall j | 0 <= j < i - 1 ensures Candidate(base, j) in taken - {last} {
        if Candidate(base, j) == last {
          CandidatesAreDistinct(base, j, i - 1);
        }
      }
      TakenProbesRunOut(base, taken - {last}, i - 1);
    }
  }

  function FirstFreeFrom(base: string, taken: set<string>, i: nat): string
    requires forall j :: 0 <= j < i ==> Candidate(base, j) in taken
    decreases |taken| - i
  {
    TakenProbesRunOut(base, taken, i);
    if Candidate(base, i) in taken then
      TakenProbesRunOut(base, taken, i + 1);
      FirstFreeFrom(base, taken, i + 1)
    else Candidate(base, i)
  }

  function FirstFree(base: string, taken: set<string>): string {
    FirstFreeFrom(base, taken, 0)
  }

  /** It is the first candidate of the sequence that is not taken, met within |taken| + 1 probes. */
  lemma FirstFreeIsFirst(base: string, taken: set<string>) returns (i: nat)
    ensures i <= |taken| && FirstFree(base, taken) == Candidate(base, i) && Candidate(base, i) !in taken
    ensures forall j :: 0 <= j < i ==> Candidate(base, j) in taken
  {
    i := 0;
    while Candidate(base, i) in taken
      invariant forall j :: 0 <= j < i ==> Candidate(base, j) in taken
      invariant FirstFree(base, taken) == FirstFreeFrom(base, taken, i)
      decreases |taken| - i
    {
      TakenProbesRunOut(base, taken, i + 1);
      i := i + 1;
    }
    TakenProbesRunOut(base, taken, i);
  }

  method AllocateUnique(base: string, taken: set<string>) returns (candidate: string)
    ensures candidate == FirstFree(base, taken)
  {
    candidate := base;
    var n := 2;
    while candidate in taken
      invariant n >= 2 && candidate == Candidate(base, n - 2)
      invariant forall j :: 0 <= j < n - 2 ==> Candidate(base, j) in taken
      invariant FirstFree(base, taken) == FirstFreeFrom(base, taken, n - 2)
      decreases |taken| + 2 - n
    {
      TakenProbesRunOut(base, taken, n - 1);
      candidate := base + "-" + Decimal(n);
      n := n + 1;
    }
  }

  // ---------------------------------------------------------------- the tables

  function WorkspaceBase(name: string): string {
    if SlugifyWorkspaceName(name) == "" then "workspace" else SlugifyWorkspaceName(name)
  }

  function UserBase(username: string): string {
    if SlugifyWorkspaceName(username) == "" then "user" else SlugifyWorkspaceName(username)
  }

  datatype WorkspaceRow = WorkspaceRow(owner: int, slug: string, deleted: bool)

  /** Slugs of one owner's workspaces that are not deleted. */
  function TakenBy(rows: seq<WorkspaceRow>, owner: int): set<string> {
    set i | 0 <= i < |rows| && rows[i].owner == owner && !rows[i].deleted :: rows[i].slug
  }

  method AllocateUniqueWorkspaceUrlSlug(rows: seq<WorkspaceRow>, owner: int, displayName: string) returns (slug: string)
    ensures slug == FirstFree(WorkspaceBase(displayName), TakenBy(rows, owner))
  {
    slug := AllocateUnique(WorkspaceBase(displayName), TakenBy(rows, owner));
  }

  method AllocateUniqueRouteSubdomainSlug(slugs: set<string>, preferredUsername: string) returns (slug: string)
    ensures slug == FirstFree(UserBase(preferredUsername), slugs)
  {
    slug := AllocateUnique(UserBase(preferredUsername), slugs);
  }

  /** No two live workspaces of one owner share a slug. */
  predicate UniquePerOwner(rows: seq<WorkspaceRow>) {
    forall i, j :: 0 <= i < j < |rows| && rows[i].owner == rows[j].owner && !rows[i].deleted && !rows[j].deleted ==>
      rows[i].slug != rows[j].slug
  }

  datatype TableStep = Create(owner: int, name: string) | Delete(row: nat)

  function Next(rows: seq<WorkspaceRow>, s: TableStep): seq<WorkspaceRow> {
    match s
    case Create(owner, name) => rows + [WorkspaceRow(owner, FirstFree(WorkspaceBase(name), TakenBy(rows, owner)), false)]
    case Delete(i) => if i < |rows| then rows[i := rows[i].(deleted := true)] else rows
  }

  function Run(rows: seq<WorkspaceRow>, steps: seq<TableStep>): seq<WorkspaceRow> {
    if steps == [] then rows else Next(Run(rows, steps[..|steps| - 1]), steps[|steps| - 1])
  }

  predicate LiveSlug(rows: seq<WorkspaceRow>, owner: int, slug: string) {
    exists i :: 0 <= i < |rows| && rows[i].owner == owner && rows[i].slug == slug && !rows[i].deleted
  }

  /** A new row has the slug of its name, or that slug with -2, -3 and so on: the first of these that no live workspace
      of the owner has. Rows that are deleted and rows of other owners play no part. */
  lemma CreatedSlug(rows: seq<WorkspaceRow>, owner: int, name: string) returns (i: nat)
    ensures var base := WorkspaceBase(name);
            && Next(rows, Create(owner, name))
               == rows + [WorkspaceRow(owner, if i == 0 then base else base + "-" + Decimal(i + 1), false)]
            && !LiveSlug(rows, owner, if i == 0 then base else base + "-" + Decimal(i + 1))
            && forall j: nat :: j < i ==> LiveSlug(rows, owner, Candidate(base, j))
  {
    var base := WorkspaceBase(name);
    i := FirstFreeIsFirst(base, TakenBy(rows, owner));
    forall slug: string ensures slug in TakenBy(rows, owner) <==> LiveSlug(rows, owner, slug) {
    }
  }

  lemma LiveSlugsAreTaken(rows: seq<WorkspaceRow>, owner: int)
    ensures forall i :: 0 <= i < |rows| && rows[i].owner == owner && !rows[i].deleted ==>
              rows[i].slug in TakenBy(rows, owner)
  {
  }

  lemma NextKeepsUnique(rows: seq<WorkspaceRow>, s: TableStep)
    requires UniquePerOwner(rows)
    ensures UniquePerOwner(Next(rows, s))
  {
    if s.Create? {
      LiveSlugsAreTaken(rows, s.owner);
      var i := FirstFreeIsFirst(WorkspaceBase(s.name), TakenBy(rows, s.owner));
    }
  }

  /** Over any run of creations and deletions, one at a time, the live workspaces of an owner have distinct slugs. */
  lemma {:induction false} RunsStayUnique(rows: seq<WorkspaceRow>, steps: seq<TableStep>)
    requires UniquePerOwner(rows)
    ensures UniquePerOwner(Run(rows, steps))
  {
    if steps != [] {
      var n := |steps| - 1;
      RunsStayUnique(rows, steps[..n]);
      NextKeepsUnique(Run(rows, steps[..n]), steps[n]);
    }
  }

  lemma {:induction false} DecimalHasNoHyphen(n: nat)
    ensures '-' !in Decimal(n)
  {
    NoDigitIsHyphen(n % 10);
    if n >= 10 {
      DecimalHasNoHyphen(n / 10);
    }
  }

  lemma NoDigitIsHyphen(d: nat)
    requires d < 10
    ensures Digit(d) != '-'
  {
  }

  /** Two suffixed candidates are equal only if their bases are: the last hyphen parts base and number. */
  lemma SuffixedNamesDiffer(a: string, b: string, i: nat, j: nat)
    requires i > 0 && j > 0 && Candidate(a, i) == Candidate(b, j)
    ensures a == b
  {
    NameParts(a, i);
    NameParts(b, j);
    var s := Candidate(a, i);
    assert s[..|a|] == a && s[..|b|] == b;
  }

  lemma NameParts(base: string, i: nat)
    requires i > 0
    ensures var s, n := Candidate(base, i), |base|;
            n < |s| && s[..n] == base && s[n] == '-' && forall h :: n < h < |s| ==> s[h] != '-'
  {
    DecimalHasNoHyphen(i + 1);
    var s, n := Candidate(base, i), |base|;
    forall h | n < h < |s| ensures s[h] != '-' {
      assert s[h] == Decimal(i + 1)[h - n - 1];
    }
  }

  /** Base a is free, and it is a suffixed candidate of base b whose predecessors are all taken. */
  ghost predicate RunsInto(b: string, a: string, taken: set<string>) {
    a !in taken && exists j: nat :: 0 < j && a == Candidate(b, j) && forall i :: 0 <= i < j ==> Candidate(b, i) in taken
  }

  lemma FirstFreeByIndex(base: string, taken: set<string>, j: nat)
    requires Candidate(base, j) !in taken && forall i :: 0 <= i < j ==> Candidate(base, i) in taken
    ensures FirstFree(base, taken) == Candidate(base, j)
  {
    var i := FirstFreeIsFirst(base, taken);
  }

  /** Two allocations over the same taken names choose the same slug exactly when their bases are equal, or one base is
      free and the other one runs into it. */
  lemma SameChoiceExactly(a: string, b: string, taken: set<string>)
    ensures FirstFree(a, taken) == FirstFree(b, taken) <==> a == b || RunsInto(b, a, taken) || RunsInto(a, b, taken)
  {
    var i := FirstFreeIsFirst(a, taken);
    var j := FirstFreeIsFirst(b, taken);
    if a != b {
      SameChoiceMeansRunsInto(a, b, taken, i, j);
      if RunsInto(b, a, taken) {
        var h: nat :| 0 < h && a == Candidate(b, h) && forall i :: 0 <= i < h ==> Candidate(b, i) in taken;
        FirstFreeByIndex(a, taken, 0);
        FirstFreeByIndex(b, taken, h);
      } else if RunsInto(a, b, taken) {
        var h: nat :| 0 < h && b == Candidate(a, h) && forall i :: 0 <= i < h ==> Candidate(a, i) in taken;
        FirstFreeByIndex(b, taken, 0);
        FirstFreeByIndex(a, taken, h);
      }
    }
  }

  lemma SameChoiceMeansRunsInto(a: string, b: string, taken: set<string>, i: nat, j: nat)
    requires a != b && Candidate(a, i) !in taken && Candidate(b, j) !in taken
    requires forall h :: 0 <= h < i ==> Candidate(a, h) in taken
    requires forall h :: 0 <= h < j ==> Candidate(b, h) in taken
    ensures Candidate(a, i) == Candidate(b, j) ==> RunsInto(b, a, taken) || RunsInto(a, b, taken)
  {
    if Candidate(a, i) == Candidate(b, j) && i > 0 && j > 0 {
      SuffixedNamesDiffer(a, b, i, j);
    }
  }

  /** Two creations for one owner that both read the table before either inserts: uniqueness is lost exactly when the
      bases of their names are equal, or one base is free and the candidates of the other run into it. */
  lemma LateInsertCollides(rows: seq<WorkspaceRow>, owner: int, name: string, other: string)
    requires UniquePerOwner(rows)
    ensures var taken, a, b := TakenBy(rows, owner), WorkspaceBase(name), WorkspaceBase(other);
            UniquePerOwner(rows + [WorkspaceRow(owner, FirstFree(a, taken), false),
                                   WorkspaceRow(owner, FirstFree(b, taken), false)])
            <==> !(a == b || RunsInto(b, a, taken) || RunsInto(a, b, taken))
  {
    var taken := TakenBy(rows, owner);
    var i := FirstFreeIsFirst(WorkspaceBase(name), taken);
    var k := FirstFreeIsFirst(WorkspaceBase(other), taken);
    TwoMore(rows, owner, Candidate(WorkspaceBase(name), i), Candidate(WorkspaceBase(other), k));
    SameChoiceExactly(WorkspaceBase(name), WorkspaceBase(other), taken);
  }

  /** The second kind does occur: with "a" taken, the bases "a" and "a-2" both get "a-2". */
  lemma DifferentBasesCollide()
    ensures FirstFree("a", {"a"}) == FirstFree("a-2", {"a"}) == "a-2"
  {
    assert Decimal(2) == "2";
    assert Candidate("a", 1) == "a-2" && Candidate("a-2", 0) == "a-2";
    assert |"a-2"| != |"a"|;
    FirstFreeByIndex("a", {"a"}, 1);
    FirstFreeByIndex("a-2", {"a"}, 0);
  }

  lemma TwoMore(rows: seq<WorkspaceRow>, owner: int, first: string, second: string)
    requires UniquePerOwner(rows) && first !in TakenBy(rows, owner) && second !in TakenBy(rows, owner)
    ensures UniquePerOwner(rows + [WorkspaceRow(owner, first, false), WorkspaceRow(owner, second, false)])
            <==> first != second
  {
    var after := rows + [WorkspaceRow(owner, first, false), WorkspaceRow(owner, second, false)];
    LiveSlugsAreTaken(rows, owner);
    assert after[|rows|].slug == first && after[|rows| + 1].slug == second;
  }
}
