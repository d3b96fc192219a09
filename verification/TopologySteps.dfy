/** What each public call of the topology adapter does to the tables, for every reply of its surroundings. */
module TopologySteps {
  import opened Wrappers
  import opened Ipv4
  import opened Text
  import opened HostPool
  import opened TopologyTables
  import opened SubnetPool

  datatype Error =
    | RuntimeCreateError
    | RuntimeNotFoundError
    | IpAllocationError
    | AttachmentError
    | DetachError
    | DeleteError
    | UnhandledError

  /** `apply_linux_bridge` and `apply_linux_attachment`. */
  datatype Config = Config(linuxBridge: bool, linuxAttachment: bool)

  // ---------------------------------------------------------------- ensure

  const ENSURE_MAX_ATTEMPTS: nat := 16
  const ALLOCATE_MAX_ATTEMPTS: nat := 24

  /** Replies met by one ensure call: the topology row, how many attempts lose to a uniqueness conflict that leaves
      no trace in the rows read again, and whether the two commits and the bridge setup succeed. */
  datatype EnsureEnv = EnsureEnv(spec: Spec, conflicts: nat, rowCommits: bool, bridgeReady: bool, syncCommits: bool)

  function SyncStatus(cfg: Config, row: Runtime, bridgeReady: bool): RuntimeStatus {
    if !cfg.linuxBridge then Ready
    else if !row.Complete() then Degraded
    else if bridgeReady then Ready
    else Degraded
  }

  function Stored(runtimes: map<NodeKey, Runtime>, n: NodeKey): Option<Runtime> {
    if n in runtimes then Some(runtimes[n]) else None
  }

  /** The bridge sync of a stored row: only its status changes. */
  function SyncStep(cfg: Config, runtimes: map<NodeKey, Runtime>, n: NodeKey, env: EnsureEnv)
    : (r: (map<NodeKey, Runtime>, Outcome<Runtime, Error>))
    requires n in runtimes
  {
    var row := runtimes[n].(status := SyncStatus(cfg, runtimes[n], env.bridgeReady));
    if env.syncCommits then (runtimes[n := row], Returned(row))
    else (runtimes, Raised(if cfg.linuxBridge then RuntimeCreateError else UnhandledError))
  }

  /** The choice of the attempt that gets through, unless an earlier attempt cannot choose or the attempts run out. */
  function SettledChoice(
    runtimes: map<NodeKey, Runtime>, n: NodeKey, spec: Spec, attempt: nat, conflicts: nat
  ): (r: Outcome<(Network, nat), ChoiceError>)
    requires spec.Plan? && attempt < ENSURE_MAX_ATTEMPTS
    decreases conflicts
  {
    var choice := ChooseCidrAndGateway(runtimes, n, Stored(runtimes, n), spec, attempt);
    if choice.Raised? || conflicts == 0 then choice
    else if attempt + 1 == ENSURE_MAX_ATTEMPTS then Raised(CannotChoose)
    else SettledChoice(runtimes, n, spec, attempt + 1, conflicts - 1)
  }

  lemma SettledChoiceStep(
    runtimes: map<NodeKey, Runtime>, n: NodeKey, spec: Spec, attempt: nat, conflicts: nat)
    requires spec.Plan? && attempt < ENSURE_MAX_ATTEMPTS
    ensures var choice := ChooseCidrAndGateway(runtimes, n, Stored(runtimes, n), spec, attempt);
            SettledChoice(runtimes, n, spec, attempt, conflicts)
            == if choice.Raised? || conflicts == 0 then choice
               else if attempt + 1 == ENSURE_MAX_ATTEMPTS then Raised(CannotChoose)
               else SettledChoice(runtimes, n, spec, attempt + 1, conflicts - 1)
  {
  }

  function EnsureStep(cfg: Config, runtimes: map<NodeKey, Runtime>, n: NodeKey, env: EnsureEnv)
    : (r: (map<NodeKey, Runtime>, Outcome<Runtime, Error>))
  {
    if n.nodeId == "" || !env.spec.Plan? then (runtimes, Raised(RuntimeCreateError))
    else
      var existing := Stored(runtimes, n);
      if existing.Some? && existing.value.Complete() then SyncStep(cfg, runtimes, n, env)
      else
        match SettledChoice(runtimes, n, env.spec, 0, env.conflicts)
        case Raised(_) => (runtimes, Raised(RuntimeCreateError))
        case Returned((net, gateway)) =>
          if !env.rowCommits then (runtimes, Raised(RuntimeCreateError))
          else SyncStep(cfg, runtimes[n := FilledRow(existing, env.spec, net, gateway)], n, env)
  }

  // ---------------------------------------------------------------- allocate

  datatype AllocateResult = AllocateResult(workspaceIp: nat, leasedExisting: bool)

  /** The state a runtime must be in before an address is leased on it. */
  function AllocateRefusal(runtimes: map<NodeKey, Runtime>, n: NodeKey): Option<Error> {
    if n !in runtimes then Some(RuntimeNotFoundError)
    else if !runtimes[n].status.Ready? || runtimes[n].cidr.NoCidr? || runtimes[n].gateway.NoAddr?
    then Some(IpAllocationError)
    else None
  }

  /** Candidate hosts of a runtime that passed the refusal test. */
  function RuntimeCandidates(row: Runtime): (r: Outcome<seq<nat>, Error>)
    requires !row.cidr.NoCidr? && !row.gateway.NoAddr?
  {
    match row.cidr
    case BadCidr(_) => Raised(UnhandledError)
    case Cidr(net) =>
      match row.gateway
      case BadAddr(_) => Raised(IpAllocationError)
      case Addr(g) => if net.Contains(g) then Returned(Candidates(net, g)) else Raised(IpAllocationError)
  }

  /** The offset of a retry is spread over the candidates; attempt 0 starts at the first one. */
  function ScanOffset(k: WorkspaceKey, candidates: nat, retryIndex: nat): nat
    requires 0 < candidates
  {
    if retryIndex == 0 then 0
    else (retryIndex * 10_007 + k.workspaceId * 31 + OrdinalSum(k.node.nodeId)) % candidates
  }

  /** The address one attempt picks from the rows it reads. */
  function PickedIp(runtimes: map<NodeKey, Runtime>, leases: map<WorkspaceKey, Lease>, k: WorkspaceKey, retryIndex: nat)
    : (r: Outcome<nat, Error>)
    requires AllocateRefusal(runtimes, k.node).None?
  {
    match RuntimeCandidates(runtimes[k.node])
    case Raised(e) => Raised(e)
    case Returned(candidates) =>
      if candidates == [] then Raised(IpAllocationError)
      else
        match PickFreeHost(candidates, LeasedIps(leases, k.node), ScanOffset(k, |candidates|, retryIndex))
        case None => Raised(IpAllocationError)
        case Some(ip) => Returned(ip)
  }

  datatype AllocateEnv = AllocateEnv(conflicts: nat, commits: bool)

  /** The address of the attempt that gets through, unless there is none to pick or the attempts run out. */
  function SettledIp(runtimes: map<NodeKey, Runtime>, leases: map<WorkspaceKey, Lease>, k: WorkspaceKey, conflicts: nat)
    : (r: Outcome<nat, Error>)
    requires AllocateRefusal(runtimes, k.node).None?
  {
    if PickedIp(runtimes, leases, k, 0).Returned? && conflicts >= ALLOCATE_MAX_ATTEMPTS then Raised(IpAllocationError)
    else PickedIp(runtimes, leases, k, conflicts)
  }

  /** Whether there is an address to pick does not depend on the attempt. */
  lemma PickFailsAlike(runtimes: map<NodeKey, Runtime>, leases: map<WorkspaceKey, Lease>, k: WorkspaceKey, i: nat, j: nat)
    requires AllocateRefusal(runtimes, k.node).None?
    ensures PickedIp(runtimes, leases, k, i).Raised? ==>
              PickedIp(runtimes, leases, k, j) == PickedIp(runtimes, leases, k, i)
  {
    var r := RuntimeCandidates(runtimes[k.node]);
    if r.Returned? && r.value != [] {
      var used := LeasedIps(leases, k.node);
      PickFailsOnlyWhenExhausted(r.value, used, ScanOffset(k, |r.value|, i));
      PickFailsOnlyWhenExhausted(r.value, used, ScanOffset(k, |r.value|, j));
    }
  }

  function AllocateStep(t: Tables, k: WorkspaceKey, env: AllocateEnv)
    : (r: (map<WorkspaceKey, Lease>, Outcome<AllocateResult, Error>))
  {
    match AllocateRefusal(t.runtimes, k.node)
    case Some(e) => (t.leases, Raised(e))
    case None =>
      if ActiveLease(t.leases, k) then (t.leases, Returned(AllocateResult(t.leases[k].ip, true)))
      else
        match SettledIp(t.runtimes, t.leases, k, env.conflicts)
        case Raised(e) => (t.leases, Raised(e))
        case Returned(ip) =>
          if env.commits then (t.leases[k := Lease(ip, true)], Returned(AllocateResult(ip, false)))
          else (t.leases, Raised(IpAllocationError))
  }

  // ---------------------------------------------------------------- attach

  /** A plumbing check: it finds nothing, finds failures, or raises. */
  datatype Verification = Clean | Mismatch | CheckRaises

  /** The veth and namespace wiring: it succeeds, fails with an error attach handles, or with another one. */
  datatype Wiring = WiringDone | WiringFails | WiringEscapes

  datatype AttachRequest = AttachRequest(container: string, netnsOk: bool, workspaceIp: nat)

  datatype AttachEnv = AttachEnv(
    ensure: EnsureEnv,
    fastVerify: Verification,
    attachingCommits: bool,
    wiring: Wiring,
    attachedCommits: bool,
    postVerify: Verification,
    failedCommits: bool,
    releaseCommits: bool,
    now: int)

  /** How far an attach call gets once the runtime is ensured. */
  datatype AttachPath =
    | Refused(error: Error)            // no attachment row written
    | AlreadyAttached                  // fast path
    | LeftAttaching                    // an unhandled error escaped the wiring
    | FailedBeforeAttached             // handled failure; the row was ATTACHING
    | FailedAfterAttached              // the row was ATTACHED when the final verification failed
    | AttachedButRaised                // the row is ATTACHED and the final verification itself raised
    | AttachedNow

  function Guard(t: Tables, k: WorkspaceKey, req: AttachRequest): Option<Error> {
    if k.node !in t.runtimes then Some(RuntimeNotFoundError)
    else
      var runtime := t.runtimes[k.node];
      if !runtime.status.Ready? || !runtime.Complete() then Some(AttachmentError)
      else if !ActiveLease(t.leases, k) || t.leases[k].ip != req.workspaceIp then Some(AttachmentError)
      else if !runtime.cidr.Cidr? || !runtime.cidr.net.Contains(req.workspaceIp) then Some(AttachmentError)
      else if !req.netnsOk then Some(AttachmentError)
      else None
  }

  predicate EarlyEligible(t: Tables, k: WorkspaceKey, req: AttachRequest) {
    && k in t.attachments
    && t.attachments[k].status.Attached?
    && t.attachments[k].containerId == Cleaned(req.container)
    && t.attachments[k].workspaceIp == Addr(req.workspaceIp)
  }

  /** From the ATTACHING commit on, the replies alone decide. */
  function WiredPath(cfg: Config, env: AttachEnv): (path: AttachPath)
    ensures !path.Refused? && !path.AlreadyAttached?
  {
    if !cfg.linuxAttachment then if env.attachedCommits then AttachedNow else FailedBeforeAttached
    else
      match env.wiring
      case WiringEscapes => LeftAttaching
      case WiringFails => FailedBeforeAttached
      case WiringDone =>
        if !env.attachedCommits then FailedBeforeAttached
        else
          match env.postVerify
          case Clean => AttachedNow
          case Mismatch => FailedAfterAttached
          case CheckRaises => AttachedButRaised
  }

  function PathOf(cfg: Config, t: Tables, k: WorkspaceKey, req: AttachRequest, env: AttachEnv): (path: AttachPath) {
    match Guard(t, k, req)
    case Some(e) => Refused(e)
    case None =>
      if EarlyEligible(t, k, req) && (!cfg.linuxAttachment || env.fastVerify.Clean?) then AlreadyAttached
      else if EarlyEligible(t, k, req) && env.fastVerify.CheckRaises? then Refused(UnhandledError)
      else if !env.attachingCommits then Refused(AttachmentError)
      else WiredPath(cfg, env)
  }

  /** The row an attach call writes; its status is the only thing later commits change. */
  function AttachmentRow(t: Tables, k: WorkspaceKey, req: AttachRequest, status: AttachmentStatus, now: int): Attachment
    requires k.node in t.runtimes
  {
    var runtime := t.runtimes[k.node];
    Attachment(status, Cleaned(req.container), Addr(req.workspaceIp), runtime.bridge, runtime.gateway, now)
  }

  /** The status the row of the call ends in, for the paths that write it. */
  function FinalStatus(path: AttachPath, env: AttachEnv): (s: AttachmentStatus)
    requires !path.Refused? && !path.AlreadyAttached?
  {
    match path
    case LeftAttaching => Attaching
    case FailedBeforeAttached => if env.failedCommits then Failed else Attaching
    case FailedAfterAttached => if env.failedCommits then Failed else Attached
    case _ => Attached
  }

  predicate GaveUp(path: AttachPath) {
    path.FailedBeforeAttached? || path.FailedAfterAttached?
  }

  function PathReply(path: AttachPath, req: AttachRequest): (r: Outcome<nat, Error>) {
    if path.AttachedNow? then Returned(req.workspaceIp)
    else Raised(if GaveUp(path) then AttachmentError else UnhandledError)
  }

  /** An attach call from the point where its runtime is ensured. */
  function AttachEnsured(cfg: Config, t: Tables, k: WorkspaceKey, req: AttachRequest, env: AttachEnv)
    : (r: (Tables, Outcome<nat, Error>))
  {
    var path := PathOf(cfg, t, k, req, env);
    match path
    case Refused(e) => (t, Raised(e))
    case AlreadyAttached => (t, Returned(req.workspaceIp))
    case _ =>
      (t.(attachments := t.attachments[k := AttachmentRow(t, k, req, FinalStatus(path, env), env.now)],
          leases := if GaveUp(path) && k !in t.attachments && env.releaseCommits then Released(t.leases, k) else t.leases),
       PathReply(path, req))
  }

  function AttachStep(cfg: Config, t: Tables, k: WorkspaceKey, req: AttachRequest, env: AttachEnv)
    : (r: (Tables, Outcome<nat, Error>))
  {
    if Cleaned(req.container) == "" then (t, Raised(AttachmentError))
    else
      var (runtimes, ensured) := EnsureStep(cfg, t.runtimes, k.node, env.ensure);
      match ensured
      case Raised(e) => (t.(runtimes := runtimes), Raised(e))
      case Returned(_) => AttachEnsured(cfg, t.(runtimes := runtimes), k, req, env)
  }

  // ---------------------------------------------------------------- detach, release, delete

  datatype DetachEnv = DetachEnv(vethRemoved: bool, commits: bool, now: int)

  predicate DetachSucceeds(cfg: Config, env: DetachEnv) {
    (cfg.linuxAttachment ==> env.vethRemoved) && env.commits
  }

  function DetachedRow(a: Attachment, now: int): Attachment {
    a.(status := Detached, containerId := "", updatedAt := now)
  }

  /** Whether the row of k was detached by this call. */
  function DetachStep(cfg: Config, attachments: map<WorkspaceKey, Attachment>, k: WorkspaceKey, env: DetachEnv)
    : (r: (map<WorkspaceKey, Attachment>, Outcome<bool, Error>))
  {
    if k !in attachments || attachments[k].status.Detached? then (attachments, Returned(false))
    else if DetachSucceeds(cfg, env) then (attachments[k := DetachedRow(attachments[k], env.now)], Returned(true))
    else (attachments, Raised(DetachError))
  }

  function ReleaseStep(leases: map<WorkspaceKey, Lease>, k: WorkspaceKey, commits: bool)
    : (r: (map<WorkspaceKey, Lease>, Outcome<bool, Error>))
  {
    if !ActiveLease(leases, k) then (leases, Returned(false))
    else if commits then (Released(leases, k), Returned(true))
    else (leases, Raised(IpAllocationError))
  }

  datatype DeleteEnv = DeleteEnv(commits: bool, bridgeRemoved: bool)

  predicate Blocked(attachments: map<WorkspaceKey, Attachment>, n: NodeKey) {
    exists k :: k in attachments && k.node == n && !attachments[k].status.Detached?
  }

  function WithoutNode(attachments: map<WorkspaceKey, Attachment>, n: NodeKey): map<WorkspaceKey, Attachment> {
    map k | k in attachments && k.node != n :: attachments[k]
  }

  function DeleteStep(cfg: Config, t: Tables, n: NodeKey, env: DeleteEnv): (r: (Tables, Outcome<(), Error>)) {
    if n.nodeId == "" || Blocked(t.attachments, n) then (t, Raised(DeleteError))
    else if n !in t.runtimes then
      (if env.commits then t.(attachments := WithoutNode(t.attachments, n)) else t, Returned(()))
    else if !env.commits then (t, Raised(DeleteError))
    else
      (t.(attachments := WithoutNode(t.attachments, n), runtimes := t.runtimes - {n}),
       if cfg.linuxBridge && t.runtimes[n].bridge != "" && !env.bridgeRemoved then Raised(DeleteError) else Returned(()))
  }

  // ---------------------------------------------------------------- health check

  datatype Issue =
    | AttachmentNotFound
    | StatusNotAttached
    | ContainerUnset
    | WorkspaceIpUnset
    | BridgeUnset
    | GatewayUnset
    | NoActiveLease
    | LeaseMismatch
    | RuntimeNotFound
    | CidrInvalid
    | GatewayInvalid
    | GatewayOutsideCidr
    | WorkspaceIpInvalid
    | WorkspaceIpOutsideCidr
    | LinuxIssue(text: string)

  function When(condition: bool, issue: Issue): seq<Issue> {
    if condition then [issue] else []
  }

  function RuntimeConsistencyIssues(cidr: CidrField, gateway: AddrField): seq<Issue> {
    match cidr
    case NoCidr => []
    case BadCidr(_) => [CidrInvalid]
    case Cidr(net) =>
      match gateway
      case NoAddr => []
      case BadAddr(_) => [GatewayInvalid]
      case Addr(g) => When(!net.Contains(g), GatewayOutsideCidr)
  }

  function WorkspaceIpIssues(cidr: CidrField, ip: AddrField): seq<Issue> {
    if !cidr.Cidr? then []
    else
      match ip
      case NoAddr => []
      case BadAddr(_) => [WorkspaceIpInvalid]
      case Addr(a) => When(!cidr.net.Contains(a), WorkspaceIpOutsideCidr)
  }

  /** The issue list of `check_attachment`; `linux` is what the host checks report when they run. */
  function CheckIssues(cfg: Config, t: Tables, k: WorkspaceKey, linux: seq<Issue>): (issues: seq<Issue>) {
    if k !in t.attachments then [AttachmentNotFound]
    else
      var att := t.attachments[k];
      var leased := ActiveLease(t.leases, k);
      var db :=
        When(!att.status.Attached?, StatusNotAttached)
        + When(att.containerId == "", ContainerUnset)
        + When(att.workspaceIp.NoAddr?, WorkspaceIpUnset)
        + When(att.bridge == "", BridgeUnset)
        + When(att.gateway.NoAddr?, GatewayUnset)
        + When(!leased, NoActiveLease)
        + When(leased && !att.workspaceIp.NoAddr? && att.workspaceIp != Addr(t.leases[k].ip), LeaseMismatch);
      var runtime :=
        if k.node !in t.runtimes then [RuntimeNotFound]
        else
          RuntimeConsistencyIssues(t.runtimes[k.node].cidr, t.runtimes[k.node].gateway)
          + WorkspaceIpIssues(t.runtimes[k.node].cidr, att.workspaceIp);
      var linkable :=
        && att.status.Attached? && att.containerId != "" && att.bridge != ""
        && leased && att.workspaceIp == Addr(t.leases[k].ip);
      db + runtime + if cfg.linuxAttachment && linkable then linux else []
  }

  predicate Healthy(cfg: Config, t: Tables, k: WorkspaceKey, linux: seq<Issue>) {
    CheckIssues(cfg, t, k, linux) == []
  }
}
