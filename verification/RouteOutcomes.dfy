/** What a request puts into the route table and what the document then says, spelled out in text. */
module RouteOutcomes {
  import opened Wrappers
  import opened Text
  import opened RouteAdmin
  import opened RouteDocument
  import opened RouteTable

  /** What stands at position i is "://". */
  predicate SchemeMarkAt(t: string, i: nat) {
    i + 3 <= |t| && t[i] == ':' && t[i + 1] == '/' && t[i + 2] == '/'
  }

  lemma MarkAt(t: string, i: nat)
    requires i <= |t|
    ensures StartsWith(t[i..], "://") <==> SchemeMarkAt(t, i)
  {
    if i + 3 <= |t| {
      assert t[i..][..3] == [t[i], t[i + 1], t[i + 2]];
    }
  }

  lemma MarkedExactly(t: string)
    ensures HasScheme(t) <==> exists i: nat :: SchemeMarkAt(t, i)
  {
    forall i: nat | i <= |t| ensures StartsWith(t[i..], "://") <==> SchemeMarkAt(t, i) {
      MarkAt(t, i);
    }
  }

  predicate WebUrl(t: string) {
    "http://" <= t || "https://" <= t
  }

  lemma WebUrlStarts(t: string)
    ensures WebUrl(t) <==> StartsWith(t, "http://") || StartsWith(t, "https://")
  {
  }

  /** A target is kept when it is an http or https URL, gets "http://" in front when it names no scheme, and is refused
      when it is blank or names another scheme; white space around it is dropped. */
  lemma TargetOutcome(left: string, t: string, right: string)
    requires AllSpace(left) && Trimmed(t) && AllSpace(right)
    ensures NormalizeTarget(left + t + right)
            == if t == "" then None
               else if WebUrl(t) then Some(t)
               else if exists i: nat :: SchemeMarkAt(t, i) then None
               else Some("http://" + t)
  {
    StripDrops(left, t, right);
    MarkedExactly(t);
    WebUrlStarts(t);
    if WebUrl(t) {
      PrefixHasScheme(t);
    }
    assert StartsWith("http://" + t, "http://");
  }

  predicate IdText(w: string) {
    1 <= |w| <= 128
    && forall i :: 0 <= i < |w| ==>
         || 'a' <= w[i] <= 'z' || 'A' <= w[i] <= 'Z' || '0' <= w[i] <= '9'
         || w[i] == '.' || w[i] == '_' || w[i] == '-'
  }

  lemma IdExactly(w: string)
    requires Trimmed(w)
    ensures MatchesSafeWid(w) <==> IdText(w)
  {
    assert IsSpace('\n');
  }

  /** The row a request registers, whatever white space stands around its four texts: the public host, the URL of the
      target, and the path prefix, under the workspace id. The request is refused exactly when the id is malformed or
      the target is blank or of another scheme. */
  lemma RegisteredRow(w: string, host: string, t: string, prefix: string, left: string, right: string)
    requires Trimmed(w) && Trimmed(host) && Trimmed(t) && Trimmed(prefix) && AllSpace(left) && AllSpace(right)
    ensures Registered(left + w + right, left + host + right, left + t + right, left + prefix + right)
            == if !IdText(w) || t == "" then None
               else if WebUrl(t) then Some((w, Row(host, t, prefix)))
               else if exists i: nat :: SchemeMarkAt(t, i) then None
               else Some((w, Row(host, "http://" + t, prefix)))
  {
    StripDrops(left, w, right);
    StripDrops(left, host, right);
    StripDrops(left, prefix, right);
    TargetOutcome(left, t, right);
    IdExactly(w);
  }

  /** The document of a table holds, for each id, a router under "devnest-reg-" and the id, on entry point "web", or in
      HTTPS mode on "websecure" with a second one under the same name and "-http" on "web"; both with the rule of the
      row's host and prefix, and with the service that leads to the row's target. */
  lemma WrittenRoute(doc: Document, routes: Routes, https: bool, w: string)
    requires DocumentOf(doc, routes, https) && w in routes
    ensures doc.Document?
    ensures var name := "devnest-reg-" + w;
            var row := routes[w];
            var rule := if row.prefix == "" then "Host(`" + row.host + "`)"
                        else "Host(`" + row.host + "`) && PathPrefix(`" + row.prefix + "`)";
            && name in doc.routers
            && doc.routers[name] == Router(rule, if https then "websecure" else "web", name + "-upstream")
            && (https && w + "-http" !in routes ==>
                  && name + "-http" in doc.routers
                  && doc.routers[name + "-http"] == Router(rule, "web", name + "-upstream"))
            && name + "-upstream" in doc.services && doc.services[name + "-upstream"] == row.target
  {
    var row := routes[w];
    assert routes != map[];
    RuleText(row);
    assert RouterName(w) == "devnest-reg-" + w;
    assert ServiceName(w) == RouterName(w) + "-upstream" && MirrorName(w) == RouterName(w) + "-http";
    assert w in routes.Keys;
  }

  lemma RuleText(row: Row)
    ensures RuleOf(row) == if row.prefix == "" then "Host(`" + row.host + "`)"
                           else "Host(`" + row.host + "`) && PathPrefix(`" + row.prefix + "`)"
  {
    if row.prefix != "" {
      assert "`)" + (" && " + "PathPrefix(`") == "`) && PathPrefix(`";
    }
  }

  /** The document holds nothing else: each router and each service is under a name made of an id of the table. */
  lemma NoOtherRoutes(doc: Document, routes: Routes, https: bool, name: string)
    requires DocumentOf(doc, routes, https) && doc.Document?
    ensures name in doc.routers ==>
              exists w :: w in routes && (name == "devnest-reg-" + w || (https && name == "devnest-reg-" + w + "-http"))
    ensures name in doc.services ==> exists w :: w in routes && name == "devnest-reg-" + w + "-upstream"
  {
    if name in doc.routers {
      var w :| w in routes.Keys && (name == RouterName(w) || (https && name == MirrorName(w)));
      assert w in routes && (name == "devnest-reg-" + w || (https && name == "devnest-reg-" + w + "-http"));
    }
    if name in doc.services {
      var w :| w in routes.Keys && name == ServiceName(w);
      assert w in routes && name == "devnest-reg-" + w + "-upstream";
    }
  }

  // ---------------------------------------------------------------- rules with other white space

  lemma TakenUpTo(text: string, rest: string)
    requires text != "" && '`' !in text
    ensures TakeQuoted(text + ("`)" + rest)) == Some((text, rest))
  {
    TakeQuotedInverts(text, rest);
    assert text + ("`)" + rest) == text + CLOSE + rest;
  }

  /** The second part of a rule, after the host. */
  lemma PrefixPart(host: string, gap1: string, gap2: string, prefix: string)
    requires AllSpace(gap1) && AllSpace(gap2) && host != "" && '`' !in host && prefix != "" && '`' !in prefix
    ensures var last := "PathPrefix(`" + (prefix + ("`)" + ""));
            MatchHostPrefix("Host(`" + (host + ("`)" + (gap1 + ("&&" + (gap2 + last)))))) == Some((host, prefix))
  {
    var last := "PathPrefix(`" + (prefix + ("`)" + ""));
    var middle := "&&" + (gap2 + last);
    var tail := host + ("`)" + (gap1 + middle));
    var rule := "Host(`" + tail;
    assert rule[..6] == HOST_OPEN && rule[6..] == tail;
    TakenUpTo(host, gap1 + middle);
    LeftStripDrops(gap1, middle);
    assert middle[..2] == "&&" && middle[2..] == gap2 + last;
    LeftStripDrops(gap2, last);
    assert last[..12] == PREFIX_OPEN && last[12..] == prefix + ("`)" + "");
    TakenUpTo(prefix, "");
  }

  lemma Trim(left: string, s: string, right: string)
    requires AllSpace(left) && AllSpace(right) && s != "" && s[0] == 'H' && s[|s| - 1] == ')'
    ensures Strip(left + s + right) == s
  {
    StripDrops(left, s, right);
  }

  /** Any white space may stand around the conjunction and around a rule. */
  lemma SpacedRuleIsRead(left: string, host: string, gap1: string, gap2: string, prefix: string, right: string)
    requires AllSpace(left) && AllSpace(gap1) && AllSpace(gap2) && AllSpace(right)
    requires host != "" && '`' !in host && prefix != "" && '`' !in prefix
    ensures var last := "PathPrefix(`" + (prefix + ("`)" + ""));
            var rule := "Host(`" + (host + ("`)" + (gap1 + ("&&" + (gap2 + last)))));
            ParseRule(left + rule + right) == Some((Strip(host), Strip(prefix)))
  {
    var last := "PathPrefix(`" + (prefix + ("`)" + ""));
    var rule := "Host(`" + (host + ("`)" + (gap1 + ("&&" + (gap2 + last)))));
    assert last[|last| - 1] == ')';
    assert rule[|rule| - 1] == ')' && rule[0] == 'H';
    Trim(left, rule, right);
    PrefixPart(host, gap1, gap2, prefix);
  }

  // ---------------------------------------------------------------- files edited by hand

  /** A router with a plain rule is loaded exactly when its service has a target that a request could have registered,
      and then with that target's URL. */
  lemma LoadedRow(routers: map<string, Router>, services: map<string, string>, w: string, row: Row, left: string,
                  right: string)
    requires AllSpace(left) && AllSpace(right) && Trimmed(row.target) && SafeWid(w) && !EndsWith(w, "-http")
    requires Trimmed(row.host) && row.host != "" && '`' !in row.host && Trimmed(row.prefix) && '`' !in row.prefix
    requires "devnest-reg-" + w in routers && routers["devnest-reg-" + w].rule == RuleOf(row)
    ensures var service, t := "devnest-reg-" + w + "-upstream", row.target;
            service in services && services[service] == left + t + right ==>
              if t == "" || (!WebUrl(t) && exists i: nat :: SchemeMarkAt(t, i)) then
                w !in HydratedFrom(routers, services)
              else
                && w in HydratedFrom(routers, services)
                && HydratedFrom(routers, services)[w]
                   == Row(row.host, if WebUrl(t) then t else "http://" + t, row.prefix)
    ensures "devnest-reg-" + w + "-upstream" !in services ==> w !in HydratedFrom(routers, services)
  {
    assert RouterName(w) == "devnest-reg-" + w && ServiceName(w) == "devnest-reg-" + w + "-upstream";
    WidOfNames(w);
    assert w in WidsOf(routers) by {
      assert RouterName(w) in routers && WidFromRouterName(RouterName(w)) == Some(w);
    }
    HydratedAt(routers, services, w);
    RuleRoundTrip(row);
    TargetOutcome(left, row.target, right);
  }
}
