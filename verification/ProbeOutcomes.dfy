/** What a health roll-up reports and why, told from the answers of the adapters and the network. */
module ProbeOutcomes {
  import opened Wrappers
  import opened Text
  import opened Slugs
  import opened Probes

  // ---------------------------------------------------------------- codes and their causes

  /** Both topology checks gave an answer. */
  predicate Answered(p: Probed) {
    p.idsParse && p.topology.TopologyChecked? && p.attachment.AttachmentChecked?
  }

  function Address(p: Probed): string {
    if Answered(p) then Strip(p.attachment.workspaceIp) else ""
  }

  /** The arguments of the service check are in order. */
  predicate CanDial(p: Probed) {
    1 <= p.port <= 65535 && p.timeout.Seconds? && p.timeout.value > 0.0
  }

  /** The port accepted a connection. */
  predicate Connects(p: Probed) {
    Address(p) != "" && CanDial(p)
    && if p.settings.hasRunner then p.service.isIpv4 && p.service.dialRun.Ran?
       else p.settings.colocated && p.service.dial.Connected?
  }

  function State(p: Probed): string
    requires p.inspect.Inspected?
  {
    Lower(Strip(p.inspect.state))
  }

  /** What each code says. */
  predicate Cause(code: Code, p: Probed) {
    match code
    case RuntimeContainerMissing => Strip(p.containerId) != "" && p.inspect.Missing?
    case RuntimeNotRunning =>
      Strip(p.containerId) != "" && p.inspect.Inspected? && State(p) !in {"", "unknown", "running"}
    case RuntimeContainerStateUnknown =>
      Strip(p.containerId) != "" && (p.inspect.InspectFails? || (p.inspect.Inspected? && State(p) in {"", "unknown"}))
    case TopologyUnhealthy => Answered(p) && !p.topology.healthy
    case TopologyAttachmentMissing => Answered(p) && !p.attachment.healthy
    case TopologyWorkspaceIpMissing => Address(p) == ""
    case TopologyInternalEndpointMissing => Answered(p) && (Address(p) == "" || !(1 <= p.port <= 65535))
    case ProbeExecutionFailed => Strip(p.containerId) == "" || !Answered(p)
    case ServiceTimeout =>
      Address(p) != "" && CanDial(p) && !p.settings.hasRunner && p.settings.colocated && p.service.dial.TimedOut?
    case ServiceUnreachable =>
      Address(p) != "" && CanDial(p)
      && if p.settings.hasRunner then p.service.isIpv4 && p.service.dialRun.RunFails?
         else p.settings.colocated && (p.service.dial.Refused? || p.service.dial.NoRoute?)
    case ServiceConnectError =>
      Address(p) != ""
      && (|| !CanDial(p)
          || if p.settings.hasRunner then !p.service.isIpv4 else !p.settings.colocated || p.service.dial.DialFails?)
    case ServiceHttpNotReady =>
      Connects(p) && p.settings.httpProbe
      && if p.settings.hasRunner then p.service.httpRun.RunFails?
         else p.service.http.NoResponse? || (p.service.http.Status? && p.service.http.code >= 400)
    case ProbeRuntimeBinaryMissing =>
      Address(p) != "" && CanDial(p) && p.settings.hasRunner && p.service.isIpv4
      && (|| p.service.dialRun.BinaryMissing?
          || (p.service.dialRun.Ran? && p.settings.httpProbe && p.service.httpRun.BinaryMissing?))
  }

  lemma ReportsConcat(code: Code, a: seq<HealthIssue>, b: seq<HealthIssue>)
    ensures Reports(code, a + b) <==> Reports(code, a) || Reports(code, b)
  {
    if Reports(code, a) {
      var i :| i in a && i.code == code;
      assert i in a + b;
    }
    if Reports(code, b) {
      var i :| i in b && i.code == code;
      assert i in a + b;
    }
  }

  lemma ReportsOne(code: Code, i: HealthIssue)
    ensures Reports(code, [i]) <==> i.code == code
  {
    if i.code == code {
      assert i in [i];
    }
  }

  lemma ReportsSameKinds(code: Code, a: seq<HealthIssue>, b: seq<HealthIssue>)
    requires SameKinds(a, b)
    ensures Reports(code, a) <==> Reports(code, b)
  {
    if Reports(code, a) {
      var n :| 0 <= n < |a| && a[n].code == code;
      assert b[n] in b;
    }
    if Reports(code, b) {
      var n :| 0 <= n < |b| && b[n].code == code;
      assert a[n] in a;
    }
  }

  predicate ContainerCode(code: Code) {
    code in {RuntimeContainerMissing, RuntimeNotRunning, RuntimeContainerStateUnknown}
  }

  lemma ContainerReports(p: Probed, code: Code)
    ensures Reports(code, ContainerIssues(p.containerId, p.inspect))
            <==> if code == ProbeExecutionFailed then Strip(p.containerId) == ""
                 else ContainerCode(code) && Cause(code, p)
  {
    var issues := ContainerIssues(p.containerId, p.inspect);
    if issues != [] {
      ReportsOne(code, issues[0]);
      assert issues == [issues[0]];
    }
  }

  predicate TopologyCode(code: Code) {
    code in {TopologyUnhealthy, TopologyAttachmentMissing, TopologyInternalEndpointMissing}
  }

  lemma TopologyReports(p: Probed, code: Code)
    ensures var topo := TopologyState(p.idsParse, p.topology, p.attachment, p.port);
            && topo.workspaceIp == Address(p)
            && (Reports(code, topo.issues)
                <==> if code == ProbeExecutionFailed then !Answered(p)
                     else if code == TopologyWorkspaceIpMissing then Answered(p) && Address(p) == ""
                     else TopologyCode(code) && Cause(code, p))
  {
    if Answered(p) {
      var a, b := StripSlice(p.attachment.workspaceIp);
      StripTwice(p.attachment.workspaceIp);
      AnsweredReports(p.topology.healthy, p.attachment.healthy, Address(p), p.port, code);
    } else {
      ReportsOne(code, Issue(ProbeExecutionFailed, ProbePart));
    }
  }

  lemma AnsweredReports(topologyOk: bool, attachmentOk: bool, ip: string, port: int, code: Code)
    requires Trimmed(ip)
    ensures Reports(code, AnsweredIssues(topologyOk, attachmentOk, ip, port))
            <==> || (code == TopologyUnhealthy && !topologyOk) || (code == TopologyAttachmentMissing && !attachmentOk)
                 || (code == TopologyWorkspaceIpMissing && ip == "")
                 || (code == TopologyInternalEndpointMissing && (ip == "" || !(1 <= port <= 65535)))
  {
    TrimmedIsFixed(ip);
    var first := Unless(topologyOk, TopologyUnhealthy, TopologyPart);
    var second := Unless(attachmentOk, TopologyAttachmentMissing, TopologyPart);
    var third := Unless(ip != "", TopologyWorkspaceIpMissing, TopologyPart);
    var fourth := Unless(EndpointOrNone(ip, port).Some?, TopologyInternalEndpointMissing, TopologyPart);
    ReportsConcat(code, first + second + third, fourth);
    ReportsConcat(code, first + second, third);
    ReportsConcat(code, first, second);
    UnlessReports(topologyOk, TopologyUnhealthy, code);
    UnlessReports(attachmentOk, TopologyAttachmentMissing, code);
    UnlessReports(ip != "", TopologyWorkspaceIpMissing, code);
    UnlessReports(EndpointOrNone(ip, port).Some?, TopologyInternalEndpointMissing, code);
  }

  lemma UnlessReports(ok: bool, issued: Code, code: Code)
    ensures Reports(code, Unless(ok, issued, TopologyPart)) <==> !ok && code == issued
  {
    if !ok {
      ReportsOne(code, Issue(issued, TopologyPart));
    }
  }

  predicate ServiceCode(code: Code) {
    code in {ServiceTimeout, ServiceUnreachable, ServiceConnectError, ServiceHttpNotReady, ProbeRuntimeBinaryMissing}
  }

  /** A command on the execution host ends in an exception that the check does not handle. */
  predicate DialCrashes(p: Probed) {
    CanDial(p) && p.settings.hasRunner && p.service.isIpv4 && p.service.dialRun.RunnerCrashes?
  }

  predicate HttpCheckCrashes(p: Probed) {
    if p.settings.hasRunner then p.service.httpRun.RunnerCrashes? else p.service.http.HttpCrashes?
  }

  /** The outcome of the dial: which issue it gives. */
  lemma DialReports(p: Probed, code: Code)
    requires Address(p) != "" && code != ServiceHttpNotReady
    ensures var raw := ServiceReachable(p.settings, Address(p), p.port, p.timeout, p.service);
            && (raw.Raised? <==> DialCrashes(p))
            && (raw.Returned? ==>
                  && (raw.value.healthy <==> Connects(p)) && (raw.value.healthy ==> raw.value.issues == [])
                  && (!raw.value.healthy ==>
                        && |raw.value.issues| == 1
                        && (raw.value.issues[0].code == code <==> ServiceCode(code) && Cause(code, p))))
  {
    StripTwice(p.attachment.workspaceIp);
  }

  lemma HttpReports(p: Probed, code: Code)
    requires Connects(p) && p.settings.httpProbe
    ensures var http := ServiceHttp(p.settings, p.service);
            && (http.Raised? <==> HttpCheckCrashes(p))
            && (http.Returned? ==>
                  && |http.value.issues| <= 1
                  && ((http.value.issues != [] && http.value.issues[0].code == code)
                      <==> code in {ServiceHttpNotReady, ProbeRuntimeBinaryMissing} && Cause(code, p)))
  {
  }

  lemma ServicePartReports(p: Probed, code: Code)
    requires Address(p) != ""
    ensures var part := ServicePartOf(p, TopologyState(p.idsParse, p.topology, p.attachment, p.port));
            && (part.Raised? <==> DialCrashes(p) || (Connects(p) && p.settings.httpProbe && HttpCheckCrashes(p)))
            && (part.Returned? ==> (Reports(code, part.value.issues) <==> ServiceCode(code) && Cause(code, p)))
  {
    var topo := TopologyState(p.idsParse, p.topology, p.attachment, p.port);
    TopologyReports(p, code);
    DialReports(p, if code == ServiceHttpNotReady then ServiceTimeout else code);
    var raw := ServiceReachable(p.settings, Address(p), p.port, p.timeout, p.service);
    if raw.Returned? && raw.value.healthy {
      if p.settings.httpProbe {
        HttpPart(p, code, topo, raw.value);
      }
    } else if raw.Returned? {
      DownPart(p, code, topo, raw.value);
    }
  }

  lemma HttpPart(p: Probed, code: Code, topo: TopologyProbe, raw: ServiceProbe)
    requires Address(p) != "" && topo.workspaceIp == Address(p) && Connects(p) && p.settings.httpProbe
    requires raw.healthy && raw.issues == []
    requires ServiceReachable(p.settings, Address(p), p.port, p.timeout, p.service) == Returned(raw)
    ensures var part := ServicePartOf(p, topo);
            && (part.Raised? <==> HttpCheckCrashes(p))
            && (part.Returned? ==> (Reports(code, part.value.issues) <==> ServiceCode(code) && Cause(code, p)))
  {
    HttpReports(p, code);
    var http := ServiceHttp(p.settings, p.service);
    if http.Returned? {
      assert [] + http.value.issues == http.value.issues;
      if http.value.issues != [] {
        ReportsOne(code, http.value.issues[0]);
        assert http.value.issues == [http.value.issues[0]];
      }
    }
  }

  lemma DownPart(p: Probed, code: Code, topo: TopologyProbe, raw: ServiceProbe)
    requires Address(p) != "" && topo.workspaceIp == Address(p) && !Connects(p) && !raw.healthy && |raw.issues| == 1
    requires code != ServiceHttpNotReady ==> (raw.issues[0].code == code <==> ServiceCode(code) && Cause(code, p))
    requires raw.issues[0].code != ServiceHttpNotReady
    requires ServiceReachable(p.settings, Address(p), p.port, p.timeout, p.service) == Returned(raw)
    ensures var part := ServicePartOf(p, topo);
            part.Returned? && (Reports(code, part.value.issues) <==> ServiceCode(code) && Cause(code, p))
  {
    var svc := Augmented(raw, p.settings, p.service.diagnostics);
    DecoratorsKeepKinds(raw, p.settings, p.service.diagnostics, "");
    DecoratorsKeepKinds(svc, p.settings, "", HintPrefix(p.port));
    ReportsSameKinds(code, svc.issues, raw.issues);
    ReportsSameKinds(code, HintedAll(svc.issues, HintPrefix(p.port)), svc.issues);
    ReportsOne(code, raw.issues[0]);
    assert raw.issues == [raw.issues[0]];
  }

  /** A roll-up reports a code exactly for its cause, whatever the adapters and the network answer; it fails itself only
      when a command on the execution host or the HTTP client raises something that is not handled. */
  lemma ReportedExactly(p: Probed, code: Code)
    ensures CheckWorkspaceHealth(p).Raised?
            <==> Address(p) != "" && (DialCrashes(p) || (Connects(p) && p.settings.httpProbe && HttpCheckCrashes(p)))
    ensures CheckWorkspaceHealth(p).Returned? ==>
              (Reports(code, CheckWorkspaceHealth(p).value.issues) <==> Cause(code, p))
  {
    ContainerReports(p, code);
    TopologyReports(p, code);
    TopologyReports(p, TopologyWorkspaceIpMissing);
    if Address(p) != "" {
      ServicePartReports(p, code);
    } else {
      UnlessReports(Answered(p), TopologyWorkspaceIpMissing, code);
    }
    var topo := TopologyState(p.idsParse, p.topology, p.attachment, p.port);
    var ctr := ContainerIssues(p.containerId, p.inspect);
    if CheckWorkspaceHealth(p).Returned? {
      var svc := CheckWorkspaceHealth(p).value.issues[|ctr + topo.issues|..];
      assert CheckWorkspaceHealth(p).value.issues == ctr + topo.issues + svc;
      ReportsConcat(code, ctr + topo.issues, svc);
      ReportsConcat(code, ctr, topo.issues);
    }
  }

  // ---------------------------------------------------------------- components and texts

  /** The part of the system a code speaks about. */
  function PartOf(code: Code): Component {
    match code
    case RuntimeContainerMissing => RuntimePart
    case RuntimeNotRunning => RuntimePart
    case RuntimeContainerStateUnknown => RuntimePart
    case TopologyUnhealthy => TopologyPart
    case TopologyAttachmentMissing => TopologyPart
    case TopologyWorkspaceIpMissing => TopologyPart
    case TopologyInternalEndpointMissing => TopologyPart
    case ServiceUnreachable => ServicePart
    case ServiceTimeout => ServicePart
    case ServiceConnectError => ServicePart
    case ServiceHttpNotReady => ServicePart
    case ProbeExecutionFailed => ProbePart
    case ProbeRuntimeBinaryMissing => ProbePart
  }

  predicate Filed(issues: seq<HealthIssue>) {
    forall n :: 0 <= n < |issues| ==> issues[n].component == PartOf(issues[n].code) && issues[n].severity == Error
  }

  lemma FiledConcat(a: seq<HealthIssue>, b: seq<HealthIssue>)
    requires Filed(a) && Filed(b)
    ensures Filed(a + b)
  {
  }

  lemma FiledSameKinds(a: seq<HealthIssue>, b: seq<HealthIssue>)
    requires SameKinds(a, b) && Filed(b)
    ensures Filed(a)
  {
    forall n | 0 <= n < |a| ensures a[n].component == PartOf(a[n].code) && a[n].severity == Error {
      assert SameKind(a[n], b[n]);
    }
  }

  lemma DialIsFiled(s: Settings, ip: string, port: int, timeout: Timeout, env: ServiceEnv)
    ensures ServiceReachable(s, ip, port, timeout, env).Returned? ==>
              Filed(ServiceReachable(s, ip, port, timeout, env).value.issues)
  {
  }

  lemma HttpIsFiled(s: Settings, env: ServiceEnv)
    ensures ServiceHttp(s, env).Returned? ==> Filed(ServiceHttp(s, env).value.issues)
  {
  }

  lemma DecoratedIsFiled(p: Probed, raw: ServiceProbe)
    requires Filed(raw.issues)
    ensures var svc := Augmented(raw, p.settings, p.service.diagnostics);
            svc.healthy == raw.healthy && Filed(svc.issues) && Filed(HintedAll(svc.issues, HintPrefix(p.port)))
  {
    var svc := Augmented(raw, p.settings, p.service.diagnostics);
    DecoratorsKeepKinds(raw, p.settings, p.service.diagnostics, "");
    FiledSameKinds(svc.issues, raw.issues);
    DecoratorsKeepKinds(svc, p.settings, "", HintPrefix(p.port));
    FiledSameKinds(HintedAll(svc.issues, HintPrefix(p.port)), svc.issues);
  }

  lemma ServicePartIsFiled(p: Probed, topo: TopologyProbe)
    ensures ServicePartOf(p, topo).Returned? ==> Filed(ServicePartOf(p, topo).value.issues)
  {
    DialIsFiled(p.settings, topo.workspaceIp, p.port, p.timeout, p.service);
    HttpIsFiled(p.settings, p.service);
    match ServiceReachable(p.settings, topo.workspaceIp, p.port, p.timeout, p.service)
    case Raised(_) =>
    case Returned(raw) =>
      DecoratedIsFiled(p, raw);
      var svc, http := Augmented(raw, p.settings, p.service.diagnostics), ServiceHttp(p.settings, p.service);
      if svc.healthy && p.settings.httpProbe && http.Returned? {
        FiledConcat(svc.issues, http.value.issues);
      }
  }

  lemma AnsweredIsFiled(topologyOk: bool, attachmentOk: bool, ip: string, port: int)
    ensures Filed(AnsweredIssues(topologyOk, attachmentOk, ip, port))
  {
    var first := Unless(topologyOk, TopologyUnhealthy, TopologyPart);
    var second := Unless(attachmentOk, TopologyAttachmentMissing, TopologyPart);
    var third := Unless(ip != "", TopologyWorkspaceIpMissing, TopologyPart);
    var fourth := Unless(EndpointOrNone(ip, port).Some?, TopologyInternalEndpointMissing, TopologyPart);
    FiledConcat(first, second);
    FiledConcat(first + second, third);
    FiledConcat(first + second + third, fourth);
  }

  lemma ContainerIsFiled(containerId: string, reply: InspectReply)
    ensures Filed(ContainerIssues(containerId, reply))
  {
  }

  lemma TopologyIsFiled(p: Probed)
    ensures Filed(TopologyState(p.idsParse, p.topology, p.attachment, p.port).issues)
  {
    if Answered(p) {
      AnsweredIsFiled(p.topology.healthy, p.attachment.healthy, Strip(p.attachment.workspaceIp), p.port);
    }
  }

  lemma IssuesAreJoined(p: Probed) returns (svc: seq<HealthIssue>)
    requires CheckWorkspaceHealth(p).Returned?
    ensures var topo := TopologyState(p.idsParse, p.topology, p.attachment, p.port);
            && CheckWorkspaceHealth(p).value.issues == ContainerIssues(p.containerId, p.inspect) + topo.issues + svc
            && if topo.workspaceIp != ""
               then ServicePartOf(p, topo).Returned? && svc == ServicePartOf(p, topo).value.issues
               else Filed(svc)
  {
    var ctr, topo := ContainerIssues(p.containerId, p.inspect),
        TopologyState(p.idsParse, p.topology, p.attachment, p.port);
    svc := if topo.workspaceIp != "" then ServicePartOf(p, topo).value.issues
           else Unless(Reports(TopologyWorkspaceIpMissing, topo.issues), TopologyWorkspaceIpMissing, TopologyPart);
  }

  /** Every issue is an error of the part its code speaks about. */
  lemma IssuesAreFiled(p: Probed)
    requires CheckWorkspaceHealth(p).Returned?
    ensures Filed(CheckWorkspaceHealth(p).value.issues)
  {
    var topo := TopologyState(p.idsParse, p.topology, p.attachment, p.port);
    var svc := IssuesAreJoined(p);
    ServicePartIsFiled(p, topo);
    TopologyIsFiled(p);
    ContainerIsFiled(p.containerId, p.inspect);
    FiledConcat(ContainerIssues(p.containerId, p.inspect), topo.issues);
    FiledConcat(ContainerIssues(p.containerId, p.inspect) + topo.issues, svc);
  }

  /** The dial error with the first 2400 characters of the diagnostics, if there are any. */
  function Told(p: Probed): string {
    var found := Strip(p.service.diagnostics);
    if !p.settings.hasDiagnostics || found == "" then p.service.text
    else p.service.text + "; host/workspace diagnostics: " + if |found| <= 2400 then found else found[..2400]
  }

  function Hint(port: nat): string {
    "workspace topology attached but nothing is listening on 0.0.0.0:" + Decimal(port)
    + " (IDE still starting or process exited); "
  }

  /** The message of a failed connection: the hint comes in front when the topology is healthy, unless it is there
      already, and then the whole is cut at 5000 characters. */
  lemma FailedDialText(p: Probed)
    requires Address(p) != "" && CanDial(p) && !p.settings.hasRunner && p.settings.colocated
    requires p.service.dial.TimedOut? || p.service.dial.Refused? || p.service.dial.NoRoute?
    ensures CheckWorkspaceHealth(p).Returned?
    ensures var issues, told := CheckWorkspaceHealth(p).value.issues, Told(p);
            var full := Hint(p.port) + told;
            && issues != []
            && issues[|issues| - 1].message
               == if !p.topology.healthy || !p.attachment.healthy || Hint(p.port) <= told then told
                  else if |full| <= 5000 then full else full[..5000]
  {
    var topo := TopologyState(p.idsParse, p.topology, p.attachment, p.port);
    TopologyReports(p, ServiceTimeout);
    NetworkedMeansHealthy(p);
    DialText(p, topo);
  }

  lemma DialText(p: Probed, topo: TopologyProbe)
    requires Address(p) != "" && CanDial(p) && !p.settings.hasRunner && p.settings.colocated
    requires p.service.dial.TimedOut? || p.service.dial.Refused? || p.service.dial.NoRoute?
    requires topo.workspaceIp == Address(p)
    ensures var part, full := ServicePartOf(p, topo), Hint(p.port) + Told(p);
            && part.Returned? && |part.value.issues| == 1
            && part.value.issues[0].message
               == if !topo.healthy || Hint(p.port) <= Told(p) then Told(p)
                  else if |full| <= 5000 then full else full[..5000]
  {
    StripTwice(p.attachment.workspaceIp);
    var raw := ServiceReachable(p.settings, topo.workspaceIp, p.port, p.timeout, p.service).value;
    OneDiagnosed(raw, p);
    HintIsPrefix(p.port);
    OneHinted(raw.issues[0].(message := Told(p)), p.port);
  }

  lemma HintIsPrefix(port: nat)
    ensures Hint(port) == HintPrefix(port)
  {
  }

  lemma OneHinted(i: HealthIssue, port: nat)
    requires IsDial(i)
    ensures var full := Hint(port) + i.message;
            |HintedAll([i], HintPrefix(port))| == 1
            && HintedAll([i], HintPrefix(port))[0].message
               == if Hint(port) <= i.message then i.message else if |full| <= 5000 then full else full[..5000]
  {
    HintIsPrefix(port);
    assert StartsWith(i.message, Hint(port)) <==> Hint(port) <= i.message;
  }

  lemma OneDiagnosed(raw: ServiceProbe, p: Probed)
    requires !raw.healthy && |raw.issues| == 1 && IsDial(raw.issues[0]) && raw.issues[0].message == p.service.text
    ensures Augmented(raw, p.settings, p.service.diagnostics)
            == raw.(issues := [raw.issues[0].(message := Told(p))])
  {
    assert FirstDial(raw.issues) == 0;
  }

  /** Of several failed connections the first one carries the diagnostics, and no other issue changes. */
  lemma FirstDialIsDiagnosed(svc: ServiceProbe, s: Settings, diagnostics: string, n: nat)
    requires !svc.healthy && s.hasDiagnostics && Strip(diagnostics) != "" && n < |svc.issues|
    requires var i := svc.issues[n]; i.component == ServicePart && i.code in {ServiceUnreachable, ServiceTimeout}
    requires forall j :: 0 <= j < n ==> svc.issues[j].code !in {ServiceUnreachable, ServiceTimeout}
    ensures var after, found := Augmented(svc, s, diagnostics), Strip(diagnostics);
            && !after.healthy && |after.issues| == |svc.issues|
            && after.issues[n].message
               == svc.issues[n].message + "; host/workspace diagnostics: "
                  + (if |found| <= 2400 then found else found[..2400])
            && forall j :: 0 <= j < |svc.issues| && j != n ==> after.issues[j] == svc.issues[j]
  {
    assert FirstDial(svc.issues) == n;
  }
}
