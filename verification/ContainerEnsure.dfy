/** Ensuring a workspace container: reuse it, replace it when its bind mounts differ, or create it. */
module ContainerEnsure {
  import opened Wrappers
  import opened Text

  const PROJECT_PATH := "/home/coder/project"

  datatype Bind = Bind(host: string, dest: string, readOnly: bool)

  datatype Container = Container(name: string, binds: seq<Bind>)

  /** The engine's containers by id; a name belongs to at most one of them. */
  type Engine = map<string, Container>

  datatype ProjectMount = ProjectMount(host: string, readOnly: bool)

  /** The arguments of one call; an absent text argument and a blank one are one value. */
  datatype Request = Request(
    name: string,
    projectMount: Option<ProjectMount>,
    workspaceHostPath: string,
    extras: seq<Bind>,
    existingId: string,
    cpuLimit: Option<real>,
    memoryLimit: Option<int>,
    pidsLimit: Option<int>,
    ports: seq<(int, int)>)

  /** The engine's replies: whether it removes and creates, whether the image is missing at first, and can be pulled. */
  datatype EngineEnv = EngineEnv(removes: bool, imageMissing: bool, pulls: bool, creates: bool, newId: string)

  datatype Error = ContainerCreateError

  datatype EnsureResult = EnsureResult(containerId: string, createdNew: bool)

  // ---------------------------------------------------------------- paths and binds

  /** `s.rstrip("/")`. */
  function StripSlashes(s: string): string {
    if s != "" && s[|s| - 1] == '/' then StripSlashes(s[..|s| - 1]) else s
  }

  function DestKey(dest: string): string {
    if StripSlashes(Strip(dest)) == "" then "/" else StripSlashes(Strip(dest))
  }

  predicate IsAbsolute(path: string) {
    path != "" && path[0] == '/'
  }

  /** The host directory of the project mount and its mode, from the two arguments that may name it. */
  function ResolveProjectPath(mount: Option<ProjectMount>, workspaceHostPath: string)
    : (r: Outcome<(string, bool), Error>)
  {
    var pm := if mount.Some? then Strip(mount.value.host) else "";
    var wh := Strip(workspaceHostPath);
    var chosen := if pm != "" then pm else wh;
    if pm != "" && wh != "" && pm != wh then Raised(ContainerCreateError)
    else if !IsAbsolute(chosen) then Raised(ContainerCreateError)
    else Returned((chosen, mount.Some? && mount.value.readOnly))
  }

  /** An extra mount that is complete and not on the project path. */
  predicate Acceptable(b: Bind) {
    Strip(b.host) != "" && Strip(b.dest) != "" && DestKey(b.dest) != PROJECT_PATH
  }

  function Cleaned(b: Bind): Bind {
    Bind(Strip(b.host), Strip(b.dest), b.readOnly)
  }

  /** A mount entry as the create path checks it: its bind and the key of its destination, or None for a bad entry. */
  function Entry(b: Bind): Option<(Bind, string)> {
    if Acceptable(b) then Some((Cleaned(b), DestKey(b.dest))) else None
  }

  function Entries(extras: seq<Bind>): (r: seq<Option<(Bind, string)>>)
    ensures |r| == |extras| && forall i :: 0 <= i < |r| ==> r[i] == Entry(extras[i])
  {
    seq(|extras|, i requires 0 <= i < |extras| => Entry(extras[i]))
  }

  /** The first n entries are good and have distinct destinations. */
  predicate Distinct(entries: seq<Option<(Bind, string)>>, n: nat)
    requires n <= |entries|
  {
    && (forall i :: 0 <= i < n ==> entries[i].Some?)
    && (forall i, j :: 0 <= i < j < n ==> entries[i].value.1 != entries[j].value.1)
  }

  /** Extra mounts that the create path accepts. */
  predicate ValidExtras(extras: seq<Bind>) {
    Distinct(Entries(extras), |extras|)
  }

  lemma ValidMeansDistinct(extras: seq<Bind>)
    ensures ValidExtras(extras)
            <==> (forall i :: 0 <= i < |extras| ==> Acceptable(extras[i]))
                 && forall i, j :: 0 <= i < j < |extras| ==> DestKey(extras[i].dest) != DestKey(extras[j].dest)
  {
    var entries := Entries(extras);
    assert forall i :: 0 <= i < |extras| ==> entries[i] == Entry(extras[i]);
  }

  function CleanedAll(extras: seq<Bind>): (r: seq<Bind>)
    ensures |r| == |extras| && forall i :: 0 <= i < |r| ==> r[i] == Cleaned(extras[i])
  {
    seq(|extras|, i requires 0 <= i < |extras| => Cleaned(extras[i]))
  }

  method ExtraBinds(extras: seq<Bind>) returns (r: Option<seq<Bind>>)
    ensures r.Some? <==> (forall i :: 0 <= i < |extras| ==> Acceptable(extras[i]))
                         && forall i, j :: 0 <= i < j < |extras| ==> DestKey(extras[i].dest) != DestKey(extras[j].dest)
    ensures r == if ValidExtras(extras) then Some(CleanedAll(extras)) else None
  {
    var entries := Entries(extras);
    ValidMeansDistinct(extras);
    r := Collect(entries);
    if r.Some? {
      assert r.value == CleanedAll(extras);
    }
  }

  /** The loop over the entries, which gives up at a bad one or at a destination seen before. */
  method Collect(entries: seq<Option<(Bind, string)>>) returns (r: Option<seq<Bind>>)
    ensures r.Some? <==> Distinct(entries, |entries|)
    ensures r.Some? ==> |r.value| == |entries| && forall i :: 0 <= i < |entries| ==> r.value[i] == entries[i].value.0
  {
    var seen: set<string> := {};
    var out: seq<Bind> := [];
    for i := 0 to |entries|
      invariant Distinct(entries, i) && |out| == i
      invariant forall j :: 0 <= j < i ==> out[j] == entries[j].value.0 && entries[j].value.1 in seen
      invariant forall d :: d in seen ==> exists j :: 0 <= j < i && entries[j].value.1 == d
    {
      if entries[i].None? || entries[i].value.1 in seen {
        return None;
      }
      seen := seen + {entries[i].value.1};
      out := out + [entries[i].value.0];
    }
    r := Some(out);
  }

  // ---------------------------------------------------------------- ports

  /** Host port of each published container port, None for one the engine picks; None for a bad container port. */
  function PortBindings(ports: seq<(int, int)>): Option<map<int, Option<int>>> {
    if ports == [] then Some(map[])
    else
      var (hostPort, port) := ports[|ports| - 1];
      var before := PortBindings(ports[..|ports| - 1]);
      if before.None? || port <= 0 then None
      else Some(before.value[port := if hostPort <= 0 then None else Some(hostPort)])
  }

  method PortBindingsFromSpec(ports: seq<(int, int)>) returns (r: Option<map<int, Option<int>>>)
    ensures r == PortBindings(ports)
  {
    var bindings: map<int, Option<int>> := map[];
    for i := 0 to |ports|
      invariant PortBindings(ports[..i]) == Some(bindings)
    {
      assert ports[..i + 1][..i] == ports[..i];
      var (hostPort, port) := ports[i];
      if port <= 0 {
        BadPortStays(ports, i + 1);
        return None;
      }
      bindings := bindings[port := if hostPort <= 0 then None else Some(hostPort)];
    }
    assert ports[..|ports|] == ports;
    r := Some(bindings);
  }

  lemma {:induction false} BadPortStays(ports: seq<(int, int)>, i: nat)
    requires i <= |ports| && PortBindings(ports[..i]) == None
    ensures PortBindings(ports) == None
    decreases |ports| - i
  {
    if i == |ports| {
      assert ports[..i] == ports;
    } else {
      assert ports[..i + 1][..i] == ports[..i];
      BadPortStays(ports, i + 1);
    }
  }

  /** A spec is refused exactly when it has a container port that is not positive. */
  lemma {:induction false} PortsAreRefused(ports: seq<(int, int)>)
    ensures PortBindings(ports).Some? <==> forall p :: p in ports ==> p.1 > 0
  {
    if ports != [] {
      var n := |ports| - 1;
      assert ports == ports[..n] + [ports[n]];
      PortsAreRefused(ports[..n]);
    }
  }

  /** Every entry publishes its container port, as the last entry for that port says. */
  lemma {:induction false} LastPortWins(ports: seq<(int, int)>, i: nat)
    requires i < |ports| && PortBindings(ports).Some?
    requires forall j :: i < j < |ports| ==> ports[j].1 != ports[i].1
    ensures ports[i].1 in PortBindings(ports).value
    ensures PortBindings(ports).value[ports[i].1] == if ports[i].0 <= 0 then None else Some(ports[i].0)
  {
    if i < |ports| - 1 {
      LastPortWins(ports[..|ports| - 1], i);
    }
  }

  /** Nothing else is published. */
  lemma {:induction false} OnlyListedPorts(ports: seq<(int, int)>, port: int)
    requires PortBindings(ports).Some? && port in PortBindings(ports).value
    ensures exists i :: 0 <= i < |ports| && ports[i].1 == port
  {
    var n := |ports| - 1;
    if ports[n].1 != port {
      OnlyListedPorts(ports[..n], port);
      var i :| 0 <= i < n && ports[..n][i].1 == port;
      assert ports[i].1 == port;
    }
  }

  // ---------------------------------------------------------------- signatures

  type Signature = (string, string, bool)

  /** A bind as it is compared, whether the engine reports it or an extra mount asks for it. */
  function SignatureOf(b: Bind): Signature {
    (Strip(b.host), StripSlashes(Strip(b.dest)), b.readOnly)
  }

  /** The code compares sorted lists of signatures; they are equal when the multisets are. */
  function Signatures(binds: seq<Bind>): multiset<Signature> {
    multiset(seq(|binds|, i requires 0 <= i < |binds| => SignatureOf(binds[i])))
  }

  /** The binds a request asks for, None when it names none; the project mount argument is not consulted. */
  function RequestedSignatures(req: Request): Outcome<Option<multiset<Signature>>, Error> {
    if Strip(req.workspaceHostPath) != "" then
      match ResolveProjectPath(None, req.workspaceHostPath)
      case Raised(e) => Raised(e)
      case Returned((host, readOnly)) =>
        Returned(Some(multiset{(host, PROJECT_PATH, readOnly)} + Signatures(req.extras)))
    else if req.extras != [] then Returned(Some(Signatures(req.extras)))
    else Returned(None)
  }

  // ---------------------------------------------------------------- one call

  predicate NamesUnique(engine: Engine) {
    forall c, d :: c in engine && d in engine && engine[c].name == engine[d].name ==> c == d
  }

  /** `containers.get`: by id first, then by name. */
  function Find(engine: Engine, ref: string): (r: Option<string>)
    requires NamesUnique(engine)
    ensures r.Some? ==> r.value in engine && (r.value == ref || (ref !in engine && engine[r.value].name == ref))
    ensures r.None? ==> ref !in engine && forall c :: c in engine ==> engine[c].name != ref
  {
    if ref in engine then Some(ref)
    else if exists c :: c in engine && engine[c].name == ref then
      var c :| c in engine && engine[c].name == ref;
      Some(c)
    else None
  }

  /** The container a request is about: the one with the given id, else the one with the given name. */
  function Existing(engine: Engine, req: Request): (r: Option<string>)
    requires NamesUnique(engine)
    ensures r.Some? ==> r.value in engine
  {
    var id := Strip(req.existingId);
    if id != "" && Find(engine, id).Some? then Find(engine, id) else Find(engine, req.name)
  }

  predicate LimitsArePositive(req: Request) {
    && (req.cpuLimit.Some? ==> req.cpuLimit.value > 0.0)
    && (req.memoryLimit.Some? ==> req.memoryLimit.value > 0)
    && (req.pidsLimit.Some? ==> req.pidsLimit.value > 0)
  }

  /** Requests that the create path sends to the engine. */
  predicate Creatable(req: Request) {
    && ResolveProjectPath(req.projectMount, req.workspaceHostPath).Returned?
    && LimitsArePositive(req) && PortBindings(req.ports).Some? && ValidExtras(req.extras)
  }

  /** The engine creates under an unused name and a new id, if it has or can pull the image. */
  predicate EngineCreates(engine: Engine, req: Request, env: EngineEnv) {
    && (env.imageMissing ==> env.pulls) && env.creates
    && env.newId !in engine && forall c :: c in engine ==> engine[c].name != req.name
  }

  function CreatedBinds(req: Request): seq<Bind>
    requires Creatable(req)
  {
    var (host, readOnly) := ResolveProjectPath(req.projectMount, req.workspaceHostPath).value;
    [Bind(host, PROJECT_PATH, readOnly)] + CleanedAll(req.extras)
  }

  function CreateStep(engine: Engine, req: Request, env: EngineEnv): (Engine, Outcome<EnsureResult, Error>) {
    if !Creatable(req) || !EngineCreates(engine, req, env) then (engine, Raised(ContainerCreateError))
    else (engine[env.newId := Container(req.name, CreatedBinds(req))], Returned(EnsureResult(env.newId, true)))
  }

  /** Whether an existing container is kept as it is; Raised when its binds cannot even be compared. */
  function Keeps(c: Container, req: Request): Outcome<bool, Error> {
    match RequestedSignatures(req)
    case Raised(e) => Raised(e)
    case Returned(None) => Returned(true)
    case Returned(Some(wanted)) => Returned(Signatures(c.binds) == wanted)
  }

  function EnsureStep(engine: Engine, req: Request, env: EngineEnv): (Engine, Outcome<EnsureResult, Error>)
    requires NamesUnique(engine)
  {
    if Strip(req.name) == "" then (engine, Raised(ContainerCreateError))
    else
      match Existing(engine, req)
      case None => CreateStep(engine, req, env)
      case Some(c) =>
        match Keeps(engine[c], req)
        case Raised(e) => (engine, Raised(e))
        case Returned(true) => (engine, Returned(EnsureResult(c, false)))
        case Returned(false) =>
          if !env.removes then (engine, Raised(ContainerCreateError)) else CreateStep(engine - {c}, req, env)
  }

  lemma CreateKeepsNamesUnique(engine: Engine, req: Request, env: EngineEnv)
    requires NamesUnique(engine)
    ensures NamesUnique(CreateStep(engine, req, env).0)
  {
  }

  class DockerRuntimeAdapter {
    var engine: Engine

    constructor (engine: Engine)
      ensures this.engine == engine
    {
      this.engine := engine;
    }

    method EnsureContainer(req: Request, env: EngineEnv) returns (r: Outcome<EnsureResult, Error>)
      requires NamesUnique(engine)
      modifies this
      ensures NamesUnique(engine) && (engine, r) == EnsureStep(old(engine), req, env)
    {
      if Strip(req.name) == "" {
        return Raised(ContainerCreateError);
      }
      var existing: Option<string> := None;
      var id := Strip(req.existingId);
      if id != "" {
        existing := Find(engine, id);
      }
      if existing.None? {
        existing := Find(engine, req.name);
      }
      if existing.Some? {
        var wanted := RequestedSignatures(req);
        if wanted.Raised? {
          return Raised(wanted.error);
        }
        if wanted.value.None? || Signatures(engine[existing.value].binds) == wanted.value.value {
          return Returned(EnsureResult(existing.value, false));
        }
        if !env.removes {
          return Raised(ContainerCreateError);
        }
        engine := engine - {existing.value};
      }
      r := Create(req, env);
    }

    method Create(req: Request, env: EngineEnv) returns (r: Outcome<EnsureResult, Error>)
      requires NamesUnique(engine)
      modifies this
      ensures NamesUnique(engine) && (engine, r) == CreateStep(old(engine), req, env)
    {
      CreateKeepsNamesUnique(engine, req, env);
      var project := ResolveProjectPath(req.projectMount, req.workspaceHostPath);
      if project.Raised? || !LimitsArePositive(req) {
        return Raised(ContainerCreateError);
      }
      var ports := PortBindingsFromSpec(req.ports);
      if ports.None? {
        return Raised(ContainerCreateError);
      }
      var extras := ExtraBinds(req.extras);
      if extras.None? || !EngineCreates(engine, req, env) {
        return Raised(ContainerCreateError);
      }
      var (host, readOnly) := project.value;
      engine := engine[env.newId := Container(req.name, [Bind(host, PROJECT_PATH, readOnly)] + extras.value)];
      r := Returned(EnsureResult(env.newId, true));
    }
  }
}
