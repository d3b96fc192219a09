/** The health probes of a workspace and their roll-up. */
module Probes {
  import opened Wrappers
  import opened Text
  import opened Slugs

  datatype Code =
    | RuntimeContainerMissing | RuntimeNotRunning | RuntimeContainerStateUnknown
    | TopologyUnhealthy | TopologyAttachmentMissing | TopologyWorkspaceIpMissing | TopologyInternalEndpointMissing
    | ServiceUnreachable | ServiceTimeout | ServiceConnectError | ServiceHttpNotReady
    | ProbeExecutionFailed | ProbeRuntimeBinaryMissing

  datatype Component = RuntimePart | TopologyPart | ServicePart | ProbePart

  datatype Severity = Info | Warn | Error

  datatype HealthIssue = HealthIssue(code: Code, component: Component, message: string, severity: Severity)

  /** An exception that the probe does not turn into an issue. */
  datatype Crash = Crash

  /** An issue of the given kind; the wording of most issues is not modelled. */
  function Issue(code: Code, component: Component): HealthIssue {
    HealthIssue(code, component, "", Error)
  }

  function Unless(ok: bool, code: Code, component: Component): (issues: seq<HealthIssue>)
    ensures issues == [] <==> ok
  {
    if ok then [] else [Issue(code, component)]
  }

  // ---------------------------------------------------------------- container

  datatype InspectReply = InspectFails | Missing | Inspected(state: string)

  function ContainerIssues(containerId: string, reply: InspectReply): seq<HealthIssue> {
    if Strip(containerId) == "" then [Issue(ProbeExecutionFailed, ProbePart)]
    else
      match reply
      case InspectFails => [Issue(RuntimeContainerStateUnknown, RuntimePart)]
      case Missing => [Issue(RuntimeContainerMissing, RuntimePart)]
      case Inspected(raw) =>
        var state := Lower(Strip(raw));
        if state == "" || state == "unknown" then [Issue(RuntimeContainerStateUnknown, RuntimePart)]
        else Unless(state == "running", RuntimeNotRunning, RuntimePart)
  }

  // ---------------------------------------------------------------- topology

  /** The adapter's answers; a failed call and its unexpected exceptions are reported alike. */
  datatype TopologyReply = TopologyFails | TopologyChecked(healthy: bool)
  datatype AttachmentReply = AttachmentFails | AttachmentChecked(healthy: bool, workspaceIp: string)

  /** `endpoint` is the address part; the port is the expected one. */
  datatype TopologyProbe = TopologyProbe(
    healthy: bool, workspaceIp: string, endpoint: Option<string>, issues: seq<HealthIssue>)

  predicate ValidPort(port: int) {
    1 <= port <= 65535
  }

  function EndpointOrNone(ip: string, port: int): Option<string> {
    if Strip(ip) == "" || !ValidPort(port) then None else Some(Strip(ip))
  }

  /** Issues of two answered checks, in order. */
  function AnsweredIssues(topologyOk: bool, attachmentOk: bool, ip: string, port: int): seq<HealthIssue> {
    Unless(topologyOk, TopologyUnhealthy, TopologyPart)
    + Unless(attachmentOk, TopologyAttachmentMissing, TopologyPart)
    + Unless(ip != "", TopologyWorkspaceIpMissing, TopologyPart)
    + Unless(EndpointOrNone(ip, port).Some?, TopologyInternalEndpointMissing, TopologyPart)
  }

  function TopologyState(idsParse: bool, topology: TopologyReply, attachment: AttachmentReply, port: int)
    : TopologyProbe
  {
    if !idsParse || topology.TopologyFails? || attachment.AttachmentFails? then
      TopologyProbe(false, "", None, [Issue(ProbeExecutionFailed, ProbePart)])
    else
      var ip := Strip(attachment.workspaceIp);
      var issues := AnsweredIssues(topology.healthy, attachment.healthy, ip, port);
      TopologyProbe(issues == [], ip, EndpointOrNone(ip, port), issues)
  }

  method CheckTopologyState(idsParse: bool, topology: TopologyReply, attachment: AttachmentReply, port: int)
    returns (r: TopologyProbe)
    ensures r == TopologyState(idsParse, topology, attachment, port)
    ensures r.healthy <==> r.issues == []
    ensures r.healthy <==> idsParse && topology.TopologyChecked? && topology.healthy && attachment.AttachmentChecked?
                           && attachment.healthy && Strip(attachment.workspaceIp) != "" && ValidPort(port)
  {
    if !idsParse || topology.TopologyFails? || attachment.AttachmentFails? {
      return TopologyProbe(false, "", None, [Issue(ProbeExecutionFailed, ProbePart)]);
    }
    var issues: seq<HealthIssue> := [];
    if !topology.healthy {
      issues := issues + [Issue(TopologyUnhealthy, TopologyPart)];
    }
    if !attachment.healthy {
      issues := issues + [Issue(TopologyAttachmentMissing, TopologyPart)];
    }
    var ip := Strip(attachment.workspaceIp);
    StripTwice(attachment.workspaceIp);
    if ip == "" {
      issues := issues + [Issue(TopologyWorkspaceIpMissing, TopologyPart)];
    }
    var endpoint := EndpointOrNone(ip, port);
    if endpoint.None? {
      issues := issues + [Issue(TopologyInternalEndpointMissing, TopologyPart)];
    }
    r := TopologyProbe(issues == [], ip, endpoint, issues);
  }

  // ---------------------------------------------------------------- service

  datatype ServiceProbe = ServiceProbe(healthy: bool, issues: seq<HealthIssue>)

  const SERVICE_OK := ServiceProbe(true, [])

  function ServiceDown(code: Code, text: string): ServiceProbe {
    ServiceProbe(false, [HealthIssue(code, ServicePart, text, Error)])
  }

  datatype Timeout = Seconds(value: real) | NotFinite

  datatype DialReply = Connected | TimedOut | Refused | NoRoute | DialFails
  datatype RunnerReply = Ran | BinaryMissing | RunFails | RunnerCrashes
  datatype HttpReply = Status(code: int) | NoResponse | HttpCrashes

  datatype Settings = Settings(hasRunner: bool, colocated: bool, httpProbe: bool, hasDiagnostics: bool)

  /** What the network, the execution host and the diagnostics answer, with the text of the dial error. */
  datatype ServiceEnv = ServiceEnv(
    isIpv4: bool, dial: DialReply, dialRun: RunnerReply, http: HttpReply, httpRun: RunnerReply,
    text: string, diagnostics: string)

  /** A check that runs a command on the execution host; it needs an IPv4 address. */
  function ViaRunner(isIpv4: bool, run: RunnerReply, notIpv4: Code, failed: Code, text: string)
    : Outcome<ServiceProbe, Crash>
  {
    if !isIpv4 then Returned(ServiceDown(notIpv4, text))
    else
      match run
      case Ran => Returned(SERVICE_OK)
      case BinaryMissing => Returned(ServiceProbe(false, [Issue(ProbeRuntimeBinaryMissing, ProbePart)]))
      case RunFails => Returned(ServiceDown(failed, text))
      case RunnerCrashes => Raised(Crash)
  }

  function ServiceReachable(s: Settings, ip: string, port: int, timeout: Timeout, env: ServiceEnv)
    : Outcome<ServiceProbe, Crash>
  {
    if Strip(ip) == "" || !ValidPort(port) || timeout.NotFinite? || timeout.value <= 0.0 then
      Returned(ServiceDown(ServiceConnectError, env.text))
    else if s.hasRunner then ViaRunner(env.isIpv4, env.dialRun, ServiceConnectError, ServiceUnreachable, env.text)
    else if !s.colocated then Returned(ServiceDown(ServiceConnectError, env.text))
    else
      match env.dial
      case Connected => Returned(SERVICE_OK)
      case TimedOut => Returned(ServiceDown(ServiceTimeout, env.text))
      case Refused => Returned(ServiceDown(ServiceUnreachable, env.text))
      case NoRoute => Returned(ServiceDown(ServiceUnreachable, env.text))
      case DialFails => Returned(ServiceDown(ServiceConnectError, env.text))
  }

  function ServiceHttp(s: Settings, env: ServiceEnv): Outcome<ServiceProbe, Crash> {
    if s.hasRunner then ViaRunner(env.isIpv4, env.httpRun, ServiceHttpNotReady, ServiceHttpNotReady, env.text)
    else
      match env.http
      case Status(code) => Returned(if code < 400 then SERVICE_OK else ServiceDown(ServiceHttpNotReady, env.text))
      case NoResponse => Returned(ServiceDown(ServiceHttpNotReady, env.text))
      case HttpCrashes => Raised(Crash)
  }

  // ---------------------------------------------------------------- decorators

  /** Issues that say that connecting failed. */
  predicate IsDial(i: HealthIssue) {
    i.component == ServicePart && (i.code == ServiceUnreachable || i.code == ServiceTimeout)
  }

  function HintPrefix(port: int): string {
    "workspace topology attached but nothing is listening on 0.0.0.0:"
    + (if port < 0 then "-" + Decimal(-port) else Decimal(port))
    + " (IDE still starting or process exited); "
  }

  function Cut(s: string, n: nat): string {
    if |s| <= n then s else s[..n]
  }

  function Hinted(i: HealthIssue, prefix: string): HealthIssue {
    if IsDial(i) && !StartsWith(i.message, prefix) then i.(message := Cut(prefix + i.message, 5000)) else i
  }

  function HintedAll(issues: seq<HealthIssue>, prefix: string): (out: seq<HealthIssue>)
    ensures |out| == |issues| && forall n :: 0 <= n < |out| ==> out[n] == Hinted(issues[n], prefix)
  {
    seq(|issues|, n requires 0 <= n < |issues| => Hinted(issues[n], prefix))
  }

  method PrependTopologyOkNoListenerHint(issues: seq<HealthIssue>, port: int) returns (out: seq<HealthIssue>)
    ensures out == HintedAll(issues, HintPrefix(port))
  {
    var prefix := HintPrefix(port);
    out := [];
    for n := 0 to |issues|
      invariant out == HintedAll(issues, prefix)[..n]
    {
      var i := issues[n];
      if IsDial(i) && !StartsWith(i.message, prefix) {
        out := out + [HealthIssue(i.code, i.component, Cut(prefix + i.message, 5000), i.severity)];
      } else {
        out := out + [i];
      }
    }
  }

  const DIAGNOSTICS := "; host/workspace diagnostics: "

  /** Position of the first dial issue, or the number of issues. */
  function FirstDial(issues: seq<HealthIssue>): (n: nat)
    ensures n <= |issues| && (n < |issues| ==> IsDial(issues[n])) && forall j :: 0 <= j < n ==> !IsDial(issues[j])
  {
    if issues == [] || IsDial(issues[0]) then 0 else 1 + FirstDial(issues[1..])
  }

  /** The first dial issue, and only that one, carries the diagnostics. */
  function Diagnosed(issues: seq<HealthIssue>, blob: string): seq<HealthIssue> {
    var n := FirstDial(issues);
    if n == |issues| then issues else issues[n := issues[n].(message := issues[n].message + DIAGNOSTICS + blob)]
  }

  function Augmented(svc: ServiceProbe, s: Settings, diagnostics: string): ServiceProbe {
    var blob := Cut(Strip(diagnostics), 2400);
    if svc.healthy || !s.hasDiagnostics || blob == "" then svc else svc.(issues := Diagnosed(svc.issues, blob))
  }

  method AugmentUnreachableServiceProbe(svc: ServiceProbe, s: Settings, diagnostics: string) returns (r: ServiceProbe)
    ensures r == Augmented(svc, s, diagnostics)
  {
    var blob := Cut(Strip(diagnostics), 2400);
    if svc.healthy || !s.hasDiagnostics || FirstDial(svc.issues) == |svc.issues| || blob == "" {
      return svc;
    }
    var out: seq<HealthIssue> := [];
    var appended := false;
    for n := 0 to |svc.issues|
      invariant appended == (FirstDial(svc.issues) < n)
      invariant out == Diagnosed(svc.issues, blob)[..n]
    {
      var i := svc.issues[n];
      if !appended && IsDial(i) {
        out := out + [HealthIssue(i.code, i.component, i.message + DIAGNOSTICS + blob, i.severity)];
        appended := true;
      } else {
        out := out + [i];
      }
    }
    r := ServiceProbe(svc.healthy, out);
  }

  /** The same issue up to its wording. */
  predicate SameKind(a: HealthIssue, b: HealthIssue) {
    a.code == b.code && a.component == b.component && a.severity == b.severity
  }

  predicate SameKinds(a: seq<HealthIssue>, b: seq<HealthIssue>) {
    |a| == |b| && forall n :: 0 <= n < |a| ==> SameKind(a[n], b[n])
  }

  /** Neither decorator adds, drops, reorders or reclassifies an issue, and neither touches an issue that is not about
      connecting. */
  lemma DecoratorsKeepKinds(svc: ServiceProbe, s: Settings, diagnostics: string, prefix: string)
    ensures var after := Augmented(svc, s, diagnostics);
            && after.healthy == svc.healthy && SameKinds(after.issues, svc.issues)
            && forall n :: 0 <= n < |svc.issues| && !IsDial(svc.issues[n]) ==> after.issues[n] == svc.issues[n]
    ensures SameKinds(HintedAll(svc.issues, prefix), svc.issues)
    ensures forall n :: 0 <= n < |svc.issues| && !IsDial(svc.issues[n]) ==>
              HintedAll(svc.issues, prefix)[n] == svc.issues[n]
  {
  }

  lemma {:induction false} DecimalIsShort(n: nat, digits: nat, bound: nat)
    requires 1 <= digits && n < bound && bound == Power10(digits)
    ensures |Decimal(n)| <= digits
    decreases digits
  {
    if n >= 10 {
      assert digits > 1;
      assert n / 10 < Power10(digits - 1);
      DecimalIsShort(n / 10, digits - 1, Power10(digits - 1));
    }
  }

  function Power10(k: nat): nat {
    if k == 0 then 1 else 10 * Power10(k - 1)
  }

  /** Hinting hinted issues again changes nothing. */
  lemma HintTwice(issues: seq<HealthIssue>, port: int)
    requires ValidPort(port)
    ensures HintedAll(HintedAll(issues, HintPrefix(port)), HintPrefix(port)) == HintedAll(issues, HintPrefix(port))
  {
    var prefix := HintPrefix(port);
    assert Power10(5) == 100000;
    DecimalIsShort(port, 5, 100000);
    assert |prefix| <= 5000;
    forall i: HealthIssue ensures Hinted(Hinted(i, prefix), prefix) == Hinted(i, prefix) {
      HintOnceMore(i, prefix);
    }
  }

  lemma HintOnceMore(i: HealthIssue, prefix: string)
    requires |prefix| <= 5000
    ensures Hinted(Hinted(i, prefix), prefix) == Hinted(i, prefix)
  {
    var hinted := Cut(prefix + i.message, 5000);
    assert hinted[..|prefix|] == prefix;
  }

  // ---------------------------------------------------------------- roll-up

  datatype WorkspaceHealth = WorkspaceHealth(
    healthy: bool, runtimeHealthy: bool, topologyHealthy: bool, serviceHealthy: bool,
    workspaceIp: string, endpoint: Option<string>, issues: seq<HealthIssue>)

  datatype Probed = Probed(
    containerId: string, inspect: InspectReply, idsParse: bool, topology: TopologyReply, attachment: AttachmentReply,
    port: int, timeout: Timeout, settings: Settings, service: ServiceEnv)

  /** The service part for a workspace with an address. */
  function ServicePartOf(p: Probed, topo: TopologyProbe): Outcome<ServiceProbe, Crash> {
    match ServiceReachable(p.settings, topo.workspaceIp, p.port, p.timeout, p.service)
    case Raised(e) => Raised(e)
    case Returned(raw) =>
      var svc := Augmented(raw, p.settings, p.service.diagnostics);
      if !svc.healthy then
        Returned(if topo.healthy then svc.(issues := HintedAll(svc.issues, HintPrefix(p.port))) else svc)
      else if !p.settings.httpProbe then Returned(svc)
      else
        match ServiceHttp(p.settings, p.service)
        case Raised(e) => Raised(e)
        case Returned(http) => Returned(ServiceProbe(http.healthy, svc.issues + http.issues))
  }

  predicate Reports(code: Code, issues: seq<HealthIssue>) {
    exists i :: i in issues && i.code == code
  }

  function CheckWorkspaceHealth(p: Probed): Outcome<WorkspaceHealth, Crash> {
    var ctr := ContainerIssues(p.containerId, p.inspect);
    var topo := TopologyState(p.idsParse, p.topology, p.attachment, p.port);
    var part :=
      if topo.workspaceIp != "" then ServicePartOf(p, topo)
      else
        var known := Reports(TopologyWorkspaceIpMissing, topo.issues);
        Returned(ServiceProbe(false, Unless(known, TopologyWorkspaceIpMissing, TopologyPart)));
    match part
    case Raised(e) => Raised(e)
    case Returned(svc) => Returned(WorkspaceHealth(
        ctr == [] && topo.healthy && svc.healthy, ctr == [], topo.healthy, svc.healthy,
        topo.workspaceIp, topo.endpoint, ctr + topo.issues + svc.issues))
  }

  function CountOf(code: Code, issues: seq<HealthIssue>): nat {
    if issues == [] then 0 else (if issues[0].code == code then 1 else 0) + CountOf(code, issues[1..])
  }

  lemma {:induction false} CountConcat(code: Code, a: seq<HealthIssue>, b: seq<HealthIssue>)
    ensures CountOf(code, a + b) == CountOf(code, a) + CountOf(code, b)
  {
    if a == [] {
      assert a + b == b;
    } else {
      assert (a + b)[1..] == a[1..] + b;
      CountConcat(code, a[1..], b);
    }
  }

  lemma {:induction false} CountSameKinds(code: Code, a: seq<HealthIssue>, b: seq<HealthIssue>)
    requires SameKinds(a, b)
    ensures CountOf(code, a) == CountOf(code, b)
  {
    if a != [] {
      CountSameKinds(code, a[1..], b[1..]);
    }
  }

  // ---------------------------------------------------------------- what a roll-up says

  /** A service check is healthy exactly when it has no issue, and never reports a missing address. */
  predicate Coherent(svc: ServiceProbe) {
    (svc.healthy <==> svc.issues == []) && CountOf(TopologyWorkspaceIpMissing, svc.issues) == 0
  }

  lemma ReachableIsCoherent(s: Settings, ip: string, port: int, timeout: Timeout, env: ServiceEnv)
    ensures ServiceReachable(s, ip, port, timeout, env).Returned? ==>
              Coherent(ServiceReachable(s, ip, port, timeout, env).value)
  {
  }

  lemma HttpIsCoherent(s: Settings, env: ServiceEnv)
    ensures ServiceHttp(s, env).Returned? ==> Coherent(ServiceHttp(s, env).value)
  {
  }

  lemma ServicePartIsCoherent(p: Probed, topo: TopologyProbe)
    ensures ServicePartOf(p, topo).Returned? ==> Coherent(ServicePartOf(p, topo).value)
  {
    ReachableIsCoherent(p.settings, topo.workspaceIp, p.port, p.timeout, p.service);
    HttpIsCoherent(p.settings, p.service);
    match ServiceReachable(p.settings, topo.workspaceIp, p.port, p.timeout, p.service)
    case Raised(_) =>
    case Returned(raw) =>
      var svc := Augmented(raw, p.settings, p.service.diagnostics);
      DecoratorsKeepKinds(raw, p.settings, p.service.diagnostics, "");
      CountSameKinds(TopologyWorkspaceIpMissing, svc.issues, raw.issues);
      DecoratorsKeepKinds(svc, p.settings, "", HintPrefix(p.port));
      CountSameKinds(TopologyWorkspaceIpMissing, HintedAll(svc.issues, HintPrefix(p.port)), svc.issues);
      if svc.healthy && ServiceHttp(p.settings, p.service).Returned? {
        CountConcat(TopologyWorkspaceIpMissing, svc.issues, ServiceHttp(p.settings, p.service).value.issues);
      }
  }

  lemma TopologyReportsMissingIpOnce(p: Probed)
    ensures var topo := TopologyState(p.idsParse, p.topology, p.attachment, p.port);
            && (topo.healthy <==> topo.issues == [])
            && CountOf(TopologyWorkspaceIpMissing, topo.issues)
               == (if Reports(TopologyWorkspaceIpMissing, topo.issues) then 1 else 0)
            && (topo.workspaceIp != "" ==> !Reports(TopologyWorkspaceIpMissing, topo.issues))
  {
    if p.idsParse && p.topology.TopologyChecked? && p.attachment.AttachmentChecked? {
      var ip := Strip(p.attachment.workspaceIp);
      AnsweredCounts(p.topology.healthy, p.attachment.healthy, ip, p.port);
    } else {
      var only := [Issue(ProbeExecutionFailed, ProbePart)];
      assert CountOf(TopologyWorkspaceIpMissing, only) == 0;
    }
  }

  lemma AnsweredCounts(topologyOk: bool, attachmentOk: bool, ip: string, port: int)
    ensures var issues := AnsweredIssues(topologyOk, attachmentOk, ip, port);
            && CountOf(TopologyWorkspaceIpMissing, issues) == (if ip == "" then 1 else 0)
            && (Reports(TopologyWorkspaceIpMissing, issues) <==> ip == "")
  {
    var c := TopologyWorkspaceIpMissing;
    var first := Unless(topologyOk, TopologyUnhealthy, TopologyPart);
    var second := Unless(attachmentOk, TopologyAttachmentMissing, TopologyPart);
    var third := Unless(ip != "", TopologyWorkspaceIpMissing, TopologyPart);
    var fourth := Unless(EndpointOrNone(ip, port).Some?, TopologyInternalEndpointMissing, TopologyPart);
    CountConcat(c, first + second + third, fourth);
    CountConcat(c, first + second, third);
    CountConcat(c, first, second);
    if ip == "" {
      assert Issue(c, TopologyPart) in first + second + third + fourth;
    }
  }

  lemma ContainerNeverReportsIp(containerId: string, reply: InspectReply)
    ensures CountOf(TopologyWorkspaceIpMissing, ContainerIssues(containerId, reply)) == 0
  {
  }

  /** Whatever the adapters and runners answer: the workspace is healthy exactly when its issue list is empty, and a
      missing workspace address is reported once, an existing one never. */
  lemma RollUpIsCoherent(p: Probed)
    requires CheckWorkspaceHealth(p).Returned?
    ensures var r := CheckWorkspaceHealth(p).value;
            && (r.healthy <==> r.issues == [])
            && (r.healthy <==> r.runtimeHealthy && r.topologyHealthy && r.serviceHealthy)
            && CountOf(TopologyWorkspaceIpMissing, r.issues) == (if r.workspaceIp == "" then 1 else 0)
  {
    var c := TopologyWorkspaceIpMissing;
    var ctr := ContainerIssues(p.containerId, p.inspect);
    var topo := TopologyState(p.idsParse, p.topology, p.attachment, p.port);
    ContainerNeverReportsIp(p.containerId, p.inspect);
    TopologyReportsMissingIpOnce(p);
    ServicePartIsCoherent(p, topo);
    var r := CheckWorkspaceHealth(p).value;
    var svc := r.issues[|ctr + topo.issues|..];
    assert r.issues == ctr + topo.issues + svc;
    CountConcat(c, ctr + topo.issues, svc);
    CountConcat(c, ctr, topo.issues);
  }

  /** The service answers on its port: within the limits of the check and, if asked for, over HTTP too. */
  predicate Serves(p: Probed) {
    && p.timeout.Seconds? && p.timeout.value > 0.0
    && (if p.settings.hasRunner then p.service.isIpv4 && p.service.dialRun.Ran?
        else p.settings.colocated && p.service.dial.Connected?)
    && (p.settings.httpProbe ==>
          if p.settings.hasRunner then p.service.httpRun.Ran? else p.service.http.Status? && p.service.http.code < 400)
  }

  predicate Running(p: Probed) {
    Strip(p.containerId) != "" && p.inspect.Inspected? && Lower(Strip(p.inspect.state)) == "running"
  }

  predicate Networked(p: Probed) {
    && p.idsParse && p.topology.TopologyChecked? && p.topology.healthy
    && p.attachment.AttachmentChecked? && p.attachment.healthy
    && Strip(p.attachment.workspaceIp) != "" && ValidPort(p.port)
  }

  /** A workspace is reported healthy exactly when its container runs, both topology checks pass with an address and a
      valid port, and the service answers. */
  lemma HealthyMeansServing(p: Probed)
    ensures (CheckWorkspaceHealth(p).Returned? && CheckWorkspaceHealth(p).value.healthy)
            <==> Running(p) && Networked(p) && Serves(p)
  {
    NetworkedMeansHealthy(p);
    RunningMeansNoIssue(p);
    var topo := TopologyState(p.idsParse, p.topology, p.attachment, p.port);
    if Networked(p) {
      StripTwice(p.attachment.workspaceIp);
      ServesMeansHealthy(p, topo);
    }
  }

  lemma RunningMeansNoIssue(p: Probed)
    ensures ContainerIssues(p.containerId, p.inspect) == [] <==> Running(p)
  {
    assert "running"[0] == 'r' && "unknown"[0] == 'u';
  }

  lemma NetworkedMeansHealthy(p: Probed)
    ensures var topo := TopologyState(p.idsParse, p.topology, p.attachment, p.port);
            && (topo.healthy <==> Networked(p))
            && (topo.healthy ==> topo.workspaceIp == Strip(p.attachment.workspaceIp))
  {
    if p.attachment.AttachmentChecked? {
      StripTwice(p.attachment.workspaceIp);
    }
  }

  lemma ServesMeansHealthy(p: Probed, topo: TopologyProbe)
    requires Strip(topo.workspaceIp) != "" && ValidPort(p.port)
    ensures (ServicePartOf(p, topo).Returned? && ServicePartOf(p, topo).value.healthy) <==> Serves(p)
  {
  }
}
