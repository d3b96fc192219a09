/** The route table of the gateway and the Traefik document it is persisted to and hydrated from. */
module RouteAdmin {
  import opened Wrappers
  import opened Text

  const NAME_PREFIX := "devnest-reg-"
  const MIRROR := "-http"
  const UPSTREAM := "-upstream"
  const HOST_OPEN := "Host(`"
  const CLOSE := "`)"
  const PREFIX_OPEN := "PathPrefix(`"

  datatype Row = Row(host: string, target: string, prefix: string)

  datatype Router = Router(rule: string, entryPoint: string, service: string)

  /** The parsed YAML file: an empty root, or routers and the upstream URL of each service. */
  datatype Document = EmptyDocument | Document(routers: map<string, Router>, services: map<string, string>)

  // ---------------------------------------------------------------- names

  predicate SafeChar(c: char) {
    'a' <= c <= 'z' || 'A' <= c <= 'Z' || '0' <= c <= '9' || c == '.' || c == '_' || c == '-'
  }

  predicate SafeWid(w: string) {
    1 <= |w| <= 128 && forall i :: 0 <= i < |w| ==> SafeChar(w[i])
  }

  /** `_SAFE_WID.match`: the pattern's `$` also matches before a final line feed. */
  predicate MatchesSafeWid(w: string) {
    SafeWid(w) || (w != "" && w[|w| - 1] == '\n' && SafeWid(w[..|w| - 1]))
  }

  function RouterName(w: string): string {
    NAME_PREFIX + w
  }

  function MirrorName(w: string): string {
    NAME_PREFIX + w + MIRROR
  }

  function ServiceName(w: string): string {
    NAME_PREFIX + w + UPSTREAM
  }

  function WidFromRouterName(name: string): Option<string> {
    if !StartsWith(name, NAME_PREFIX) then None
    else
      var rest := name[|NAME_PREFIX|..];
      var id := if EndsWith(rest, MIRROR) then rest[..|rest| - |MIRROR|] else rest;
      if id == "" || !MatchesSafeWid(id) then None else Some(id)
  }

  lemma NamesAreInjective(v: string, w: string)
    ensures RouterName(v) == RouterName(w) ==> v == w
    ensures ServiceName(v) == ServiceName(w) ==> v == w
    ensures MirrorName(v) == MirrorName(w) ==> v == w
    ensures RouterName(v) == MirrorName(w) <==> v == w + MIRROR
  {
    assert RouterName(v)[|NAME_PREFIX|..] == v && RouterName(w)[|NAME_PREFIX|..] == w;
    assert MirrorName(w)[|NAME_PREFIX|..] == w + MIRROR && MirrorName(v)[|NAME_PREFIX|..] == v + MIRROR;
    assert (v + MIRROR)[..|v|] == v && (w + MIRROR)[..|w|] == w;
    assert ServiceName(v)[|NAME_PREFIX|..] == v + UPSTREAM && ServiceName(w)[|NAME_PREFIX|..] == w + UPSTREAM;
    assert (v + UPSTREAM)[..|v + UPSTREAM| - |UPSTREAM|] == v && (w + UPSTREAM)[..|w + UPSTREAM| - |UPSTREAM|] == w;
    assert v == w + MIRROR ==> RouterName(v) == MirrorName(w);
  }

  /** The id read back from a primary name loses a trailing "-http"; from a mirror name it never does. */
  lemma WidOfNames(w: string)
    requires SafeWid(w)
    ensures !EndsWith(w, MIRROR) ==> WidFromRouterName(RouterName(w)) == Some(w)
    ensures WidFromRouterName(MirrorName(w)) == Some(w)
  {
    assert RouterName(w)[..|NAME_PREFIX|] == NAME_PREFIX && RouterName(w)[|NAME_PREFIX|..] == w;
    assert MirrorName(w)[..|NAME_PREFIX|] == NAME_PREFIX && MirrorName(w)[|NAME_PREFIX|..] == w + MIRROR;
    assert (w + MIRROR)[..|w|] == w && (w + MIRROR)[|w|..] == MIRROR;
  }

  /** A router name with id w is the primary name of w or its mirror name. */
  lemma NamesOfWid(name: string, w: string)
    ensures WidFromRouterName(name) == Some(w) ==> name == RouterName(w) || name == MirrorName(w)
  {
    if WidFromRouterName(name) == Some(w) {
      var rest := name[|NAME_PREFIX|..];
      assert name == NAME_PREFIX + rest;
      if EndsWith(rest, MIRROR) {
        assert rest == w + MIRROR;
      }
    }
  }

  // ---------------------------------------------------------------- rules

  function RuleOf(row: Row): string {
    HOST_OPEN + row.host + CLOSE + if row.prefix == "" then "" else " && " + PREFIX_OPEN + row.prefix + CLOSE
  }

  /** One or more characters other than a backtick, then "`)": the quoted text and what follows. */
  function TakeQuoted(s: string): (r: Option<(string, string)>)
    ensures r.Some? ==> r.value.0 != "" && '`' !in r.value.0
  {
    var i := IndexOf(s, '`');
    if 0 < i && i + 2 <= |s| && s[i..i + 2] == CLOSE then Some((s[..i], s[i + 2..])) else None
  }

  /** `_HOST_RULE`. */
  function MatchHost(rule: string): (r: Option<string>)
    ensures r.Some? ==> r.value != "" && '`' !in r.value
  {
    if !StartsWith(rule, HOST_OPEN) then None
    else
      match TakeQuoted(rule[|HOST_OPEN|..])
      case None => None
      case Some((host, rest)) => if LeftStrip(rest) == "" then Some(host) else None
  }

  /** `_HOST_RULE_PREFIX`. */
  function MatchHostPrefix(rule: string): (r: Option<(string, string)>)
    ensures r.Some? ==> r.value.0 != "" && '`' !in r.value.0 && '`' !in r.value.1
  {
    if !StartsWith(rule, HOST_OPEN) then None
    else
      match TakeQuoted(rule[|HOST_OPEN|..])
      case None => None
      case Some((host, rest)) =>
        var rest1 := LeftStrip(rest);
        if !StartsWith(rest1, "&&") then None
        else
          var rest2 := LeftStrip(rest1[2..]);
          if !StartsWith(rest2, PREFIX_OPEN) then None
          else
            match TakeQuoted(rest2[|PREFIX_OPEN|..])
            case None => None
            case Some((prefix, rest3)) => if LeftStrip(rest3) == "" then Some((host, prefix)) else None
  }

  /** Host and path prefix of a rule. */
  function ParseRule(raw: string): (r: Option<(string, string)>) {
    var rule := Strip(raw);
    match MatchHostPrefix(rule)
    case Some((host, prefix)) => Some((Strip(host), Strip(prefix)))
    case None =>
      match MatchHost(rule)
      case Some(host) => Some((Strip(host), ""))
      case None => None
  }

  lemma TakeQuotedInverts(text: string, rest: string)
    ensures text != "" && '`' !in text ==> TakeQuoted(text + CLOSE + rest) == Some((text, rest))
    ensures text == "" ==> TakeQuoted(text + CLOSE + rest) == None
  {
    var s := text + CLOSE + rest;
    assert s[|text|] == '`';
    if '`' !in text {
      IndexOfUnique(s, '`', |text|);
      assert s[..|text|] == text && s[|text|..|text| + 2] == CLOSE && s[|text| + 2..] == rest;
    }
  }

  lemma RuleIsTrimmed(row: Row)
    ensures Strip(RuleOf(row)) == RuleOf(row)
  {
    var r := RuleOf(row);
    assert r[0] == 'H' && r[|r| - 1] == ')';
    TrimmedIsFixed(r);
  }

  /** A rule is read back as the host and prefix it was made from exactly when the host is not empty and neither of
      them holds a backtick. */
  lemma RuleRoundTrip(row: Row)
    requires Trimmed(row.host) && Trimmed(row.prefix)
    ensures ParseRule(RuleOf(row)) == Some((row.host, row.prefix))
            <==> row.host != "" && '`' !in row.host && '`' !in row.prefix
  {
    RuleIsTrimmed(row);
    if row.host != "" && '`' !in row.host && '`' !in row.prefix {
      CleanRuleParses(row);
    } else if ParseRule(RuleOf(row)).Some? {
      if row.host == "" {
        EmptyHostFails(row);
      }
      ParsedHasNoBacktick(RuleOf(row));
    }
  }

  lemma HostPartOf(row: Row, tail: string)
    requires tail == if row.prefix == "" then "" else " && " + PREFIX_OPEN + row.prefix + CLOSE
    ensures StartsWith(RuleOf(row), HOST_OPEN) && RuleOf(row)[|HOST_OPEN|..] == row.host + CLOSE + tail
  {
    assert RuleOf(row) == HOST_OPEN + (row.host + CLOSE + tail);
  }

  lemma EmptyHostFails(row: Row)
    requires row.host == ""
    ensures MatchHostPrefix(RuleOf(row)) == None && MatchHost(RuleOf(row)) == None
  {
    var tail := if row.prefix == "" then "" else " && " + PREFIX_OPEN + row.prefix + CLOSE;
    HostPartOf(row, tail);
    TakeQuotedInverts(row.host, tail);
  }

  lemma CleanRuleParses(row: Row)
    requires Trimmed(row.host) && Trimmed(row.prefix)
    requires row.host != "" && '`' !in row.host && '`' !in row.prefix
    ensures ParseRule(RuleOf(row)) == Some((row.host, row.prefix))
  {
    RuleIsTrimmed(row);
    TrimmedIsFixed(row.host);
    TrimmedIsFixed(row.prefix);
    var tail := if row.prefix == "" then "" else " && " + PREFIX_OPEN + row.prefix + CLOSE;
    HostPartOf(row, tail);
    TakeQuotedInverts(row.host, tail);
    if row.prefix != "" {
      TailParses(row.prefix);
      assert MatchHostPrefix(RuleOf(row)) == Some((row.host, row.prefix));
    } else {
      assert MatchHostPrefix(RuleOf(row)) == None;
      assert MatchHost(RuleOf(row)) == Some(row.host);
    }
  }

  lemma TailParses(prefix: string)
    requires prefix != "" && '`' !in prefix
    ensures var tail := " && " + PREFIX_OPEN + prefix + CLOSE;
            && LeftStrip(tail) != "" && StartsWith(LeftStrip(tail), "&&")
            && LeftStrip(LeftStrip(tail)[2..]) == PREFIX_OPEN + (prefix + CLOSE + "")
            && StartsWith(PREFIX_OPEN + (prefix + CLOSE + ""), PREFIX_OPEN)
            && TakeQuoted((PREFIX_OPEN + (prefix + CLOSE + ""))[|PREFIX_OPEN|..]) == Some((prefix, ""))
  {
    var rest := PREFIX_OPEN + (prefix + CLOSE + "");
    var tail := " && " + PREFIX_OPEN + prefix + CLOSE;
    assert tail == " " + ("&& " + rest);
    OneSpace("&& " + rest);
    assert ("&& " + rest)[2..] == " " + rest;
    OneSpace(rest);
    QuotedPrefix(prefix);
  }

  lemma OneSpace(s: string)
    requires s != "" && !IsSpace(s[0])
    ensures LeftStrip(" " + s) == s
  {
    assert (" " + s)[1..] == s;
  }

  lemma QuotedPrefix(prefix: string)
    requires prefix != "" && '`' !in prefix
    ensures var rest := PREFIX_OPEN + (prefix + CLOSE + "");
            StartsWith(rest, PREFIX_OPEN) && TakeQuoted(rest[|PREFIX_OPEN|..]) == Some((prefix, ""))
  {
    var rest := PREFIX_OPEN + (prefix + CLOSE + "");
    assert rest[..|PREFIX_OPEN|] == PREFIX_OPEN && rest[|PREFIX_OPEN|..] == prefix + CLOSE + "";
    TakeQuotedInverts(prefix, "");
  }

  lemma ParsedIsTrimmed(raw: string)
    requires ParseRule(raw).Some?
    ensures Trimmed(ParseRule(raw).value.0) && Trimmed(ParseRule(raw).value.1)
  {
    var rule := Strip(raw);
    match MatchHostPrefix(rule)
    case Some((host, prefix)) =>
      var a, b := StripSlice(host);
      var c, d := StripSlice(prefix);
    case None =>
      var a, b := StripSlice(MatchHost(rule).value);
  }

  lemma ParsedHasNoBacktick(raw: string)
    requires ParseRule(raw).Some?
    ensures '`' !in ParseRule(raw).value.0 && '`' !in ParseRule(raw).value.1
  {
    var rule := Strip(raw);
    match MatchHostPrefix(rule)
    case Some((host, prefix)) =>
      StripKeepsOut(host, '`');
      StripKeepsOut(prefix, '`');
    case None =>
      StripKeepsOut(MatchHost(rule).value, '`');
  }

  // ---------------------------------------------------------------- targets

  predicate HasScheme(t: string) {
    exists i :: 0 <= i <= |t| && StartsWith(t[i..], "://")
  }

  function NormalizeTarget(raw: string): (r: Option<string>) {
    var t := Strip(raw);
    if t == "" then None
    else
      var full := if HasScheme(t) then t else "http://" + t;
      if StartsWith(full, "http://") || StartsWith(full, "https://") then Some(full) else None
  }

  lemma PartOfPrefix(t: string, prefix: string, i: nat, j: nat)
    requires StartsWith(t, prefix) && i <= j <= |prefix|
    ensures StartsWith(t[i..], prefix[i..j])
  {
    assert t[i..][..j - i] == t[i..j];
    assert t[i..j] == t[..|prefix|][i..j];
  }

  lemma PrefixHasScheme(t: string)
    requires StartsWith(t, "http://") || StartsWith(t, "https://")
    ensures HasScheme(t)
  {
    if StartsWith(t, "http://") {
      assert "http://"[4..7] == "://";
      PartOfPrefix(t, "http://", 4, 7);
    } else {
      assert "https://"[5..8] == "://";
      PartOfPrefix(t, "https://", 5, 8);
    }
  }

  /** A normalized target normalizes to itself. */
  lemma NormalizeTwice(raw: string)
    ensures NormalizeTarget(raw).Some? ==> NormalizeTarget(NormalizeTarget(raw).value) == NormalizeTarget(raw)
  {
    if NormalizeTarget(raw).Some? {
      var t := NormalizeTarget(raw).value;
      NormalizedIsTrimmed(raw);
      TrimmedIsFixed(t);
      PrefixHasScheme(t);
    }
  }

  lemma NormalizedIsTrimmed(raw: string)
    requires NormalizeTarget(raw).Some?
    ensures Trimmed(NormalizeTarget(raw).value) && NormalizeTarget(raw).value != ""
  {
    var a, b := StripSlice(raw);
  }
}
