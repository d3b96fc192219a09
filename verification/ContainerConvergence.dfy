/** Repeated ensure calls: which requests settle on one container, and which replace it every time. */
module ContainerConvergence {
  import opened Wrappers
  import opened Text
  import opened ContainerEnsure

  lemma ProjectSignature(host: string, readOnly: bool)
    requires Trimmed(host)
    ensures SignatureOf(Bind(host, PROJECT_PATH, readOnly)) == (host, PROJECT_PATH, readOnly)
  {
    TrimmedIsFixed(host);
    TrimmedIsFixed(PROJECT_PATH);
    assert PROJECT_PATH[|PROJECT_PATH| - 1] == 't';
  }

  /** Cleaning a mount does not change its signature. */
  lemma ExtrasKeepSignatures(extras: seq<Bind>)
    ensures Signatures(CleanedAll(extras)) == Signatures(extras)
  {
    var binds := CleanedAll(extras);
    forall i | 0 <= i < |extras| ensures SignatureOf(binds[i]) == SignatureOf(extras[i]) {
      StripTwice(extras[i].host);
      StripTwice(extras[i].dest);
    }
    assert seq(|binds|, i requires 0 <= i < |binds| => SignatureOf(binds[i]))
        == seq(|extras|, i requires 0 <= i < |extras| => SignatureOf(extras[i]));
  }

  /** What the engine reports of a created container: the project bind and the extra mounts. */
  lemma CreatedSignatures(req: Request)
    requires Creatable(req)
    ensures var (host, readOnly) := ResolveProjectPath(req.projectMount, req.workspaceHostPath).value;
            Signatures(CreatedBinds(req)) == multiset{(host, PROJECT_PATH, readOnly)} + Signatures(req.extras)
  {
    var (host, readOnly) := ResolveProjectPath(req.projectMount, req.workspaceHostPath).value;
    if req.projectMount.Some? {
      var a, b := StripSlice(req.projectMount.value.host);
    }
    var c, d := StripSlice(req.workspaceHostPath);
    ProjectSignature(host, readOnly);
    ExtrasKeepSignatures(req.extras);
    HeadSignature(Bind(host, PROJECT_PATH, readOnly), CleanedAll(req.extras));
  }

  lemma HeadSignature(b: Bind, rest: seq<Bind>)
    ensures Signatures([b] + rest) == multiset{SignatureOf(b)} + Signatures(rest)
  {
    var all := [b] + rest;
    var tail := seq(|rest|, i requires 0 <= i < |rest| => SignatureOf(rest[i]));
    assert seq(|all|, i requires 0 <= i < |all| => SignatureOf(all[i])) == [SignatureOf(b)] + tail;
  }

  /** Requests whose own container satisfies them: they name the host directory as the workspace path and mount it
      writable, or name it only as the project mount and have no extra mounts. */
  predicate Settles(req: Request) {
    if Strip(req.workspaceHostPath) != "" then !(req.projectMount.Some? && req.projectMount.value.readOnly)
    else req.extras == []
  }

  lemma HeadsDecide<T>(a: T, b: T, rest: multiset<T>)
    ensures multiset{a} + rest == multiset{b} + rest <==> a == b
  {
    if multiset{a} + rest == multiset{b} + rest {
      assert (multiset{a} + rest)[a] == (multiset{b} + rest)[a];
    }
  }

  lemma OneMoreDiffers<T>(a: T, rest: multiset<T>)
    ensures multiset{a} + rest != rest
  {
    assert (multiset{a} + rest)[a] == rest[a] + 1;
  }

  /** A container created for a request is kept by the same request exactly when the request settles. */
  lemma CreatedIsKept(req: Request)
    requires Creatable(req)
    ensures Keeps(Container(req.name, CreatedBinds(req)), req) == Returned(Settles(req))
  {
    CreatedSignatures(req);
    var (host, readOnly) := ResolveProjectPath(req.projectMount, req.workspaceHostPath).value;
    var extras := Signatures(req.extras);
    HeadsDecide((host, PROJECT_PATH, readOnly), (host, PROJECT_PATH, false), extras);
    OneMoreDiffers((host, PROJECT_PATH, readOnly), extras);
    WantedSignatures(req);
  }

  lemma WantedSignatures(req: Request)
    requires Creatable(req)
    ensures var (host, _) := ResolveProjectPath(req.projectMount, req.workspaceHostPath).value;
            RequestedSignatures(req) == Returned(
              if Strip(req.workspaceHostPath) != "" then
                Some(multiset{(host, PROJECT_PATH, false)} + Signatures(req.extras))
              else if req.extras != [] then Some(Signatures(req.extras)) else None)
  {
  }

  /** A repeated call, given no container id, finds the container that the first call created. */
  lemma CreatedIsFound(engine: Engine, req: Request, env: EngineEnv)
    requires NamesUnique(engine) && Strip(req.existingId) == ""
    requires EnsureStep(engine, req, env).1.Returned? && EnsureStep(engine, req, env).1.value.createdNew
    ensures var engine' := EnsureStep(engine, req, env).0;
            && NamesUnique(engine') && env.newId in engine' && Creatable(req)
            && engine'[env.newId] == Container(req.name, CreatedBinds(req))
            && Existing(engine', req) == Some(env.newId)
  {
    var before := if Existing(engine, req).Some? then engine - {Existing(engine, req).value} else engine;
    CreateKeepsNamesUnique(before, req, env);
    var engine' := EnsureStep(engine, req, env).0;
    assert engine' == before[env.newId := Container(req.name, CreatedBinds(req))];
  }

  /** After a call that created a container, a repeated call reuses it, changing nothing, exactly when the request
      settles; whatever the engine would reply. Otherwise it replaces the container, if the engine lets it. */
  lemma RepeatedCall(engine: Engine, req: Request, env: EngineEnv, env2: EngineEnv)
    requires NamesUnique(engine) && Strip(req.existingId) == ""
    requires EnsureStep(engine, req, env).1.Returned? && EnsureStep(engine, req, env).1.value.createdNew
    ensures var engine' := EnsureStep(engine, req, env).0;
            && NamesUnique(engine')
            && (EnsureStep(engine', req, env2) == (engine', Returned(EnsureResult(env.newId, false))) <==> Settles(req))
            && (!Settles(req) && env2.removes && EngineCreates(engine' - {env.newId}, req, env2) ==>
                 EnsureStep(engine', req, env2).1 == Returned(EnsureResult(env2.newId, true)))
  {
    CreatedIsFound(engine, req, env);
    CreatedIsKept(req);
  }

  /** Container ids returned by a run of calls with one request, None where a call raised. */
  function Run(engine: Engine, req: Request, envs: seq<EngineEnv>): (r: (Engine, seq<Outcome<EnsureResult, Error>>))
    requires NamesUnique(engine)
    ensures NamesUnique(r.0) && |r.1| == |envs|
    decreases |envs|
  {
    if envs == [] then (engine, [])
    else
      EnsureKeepsNamesUnique(engine, req, envs[0]);
      var (engine1, first) := EnsureStep(engine, req, envs[0]);
      var (engine2, rest) := Run(engine1, req, envs[1..]);
      (engine2, [first] + rest)
  }

  lemma EnsureKeepsNamesUnique(engine: Engine, req: Request, env: EngineEnv)
    requires NamesUnique(engine)
    ensures NamesUnique(EnsureStep(engine, req, env).0)
  {
    var before := if Existing(engine, req).Some? then engine - {Existing(engine, req).value} else engine;
    CreateKeepsNamesUnique(before, req, env);
    CreateKeepsNamesUnique(engine, req, env);
  }

  // ---------------------------------------------------------------- whole runs

  /** A container that a request finds and keeps. */
  predicate Settled(engine: Engine, req: Request, id: string)
    requires NamesUnique(engine)
  {
    && Strip(req.name) != "" && Existing(engine, req) == Some(id)
    && id in engine && Keeps(engine[id], req) == Returned(true)
  }

  /** Once settled, every further call returns the same container and creates and removes nothing, whatever the engine
      would reply. */
  lemma {:induction false} SettledRun(engine: Engine, req: Request, id: string, envs: seq<EngineEnv>)
    requires NamesUnique(engine) && Settled(engine, req, id)
    ensures Run(engine, req, envs).0 == engine
    ensures forall r :: r in Run(engine, req, envs).1 ==> r == Returned(EnsureResult(id, false))
    decreases |envs|
  {
    if envs != [] {
      assert EnsureStep(engine, req, envs[0]) == (engine, Returned(EnsureResult(id, false)));
      SettledRun(engine, req, id, envs[1..]);
    }
  }

  /** An engine that does what it is asked. */
  predicate Obliging(env: EngineEnv) {
    env.removes && env.creates && (env.imageMissing ==> env.pulls)
  }

  /** Obliging replies with new ids, none of them in use. */
  ghost predicate ObligingRun(engine: Engine, envs: seq<EngineEnv>) {
    && (forall i :: 0 <= i < |envs| ==> Obliging(envs[i]) && envs[i].newId !in engine)
    && (forall i, j :: 0 <= i < j < |envs| ==> envs[i].newId != envs[j].newId)
  }

  /** The container of the request, as a creating call leaves it. */
  predicate Holds(engine: Engine, req: Request, id: string)
    requires NamesUnique(engine) && Creatable(req)
  {
    id in engine && engine[id] == Container(req.name, CreatedBinds(req)) && Existing(engine, req) == Some(id)
  }

  lemma UnsettledCall(engine: Engine, req: Request, id: string, env: EngineEnv)
    requires NamesUnique(engine) && Strip(req.existingId) == "" && Strip(req.name) != ""
    requires Creatable(req) && !Settles(req) && Holds(engine, req, id)
    requires Obliging(env) && env.newId !in engine
    ensures var (engine', r) := EnsureStep(engine, req, env);
            && r == Returned(EnsureResult(env.newId, true)) && NamesUnique(engine') && Holds(engine', req, env.newId)
            && engine'.Keys == engine.Keys - {id} + {env.newId}
  {
    CreatedIsKept(req);
    assert EnsureStep(engine, req, env) == CreateStep(engine - {id}, req, env);
    CreatedIsFound(engine, req, env);
  }

  /** A request that does not settle replaces its container on every call. */
  lemma {:induction false} UnsettledRun(engine: Engine, req: Request, id: string, envs: seq<EngineEnv>)
    requires NamesUnique(engine) && Strip(req.existingId) == "" && Strip(req.name) != ""
    requires Creatable(req) && !Settles(req) && Holds(engine, req, id)
    requires ObligingRun(engine, envs)
    ensures forall r :: r in Run(engine, req, envs).1 ==> r.Returned? && r.value.createdNew
    decreases |envs|
  {
    if envs != [] {
      UnsettledCall(engine, req, id, envs[0]);
      var engine1 := EnsureStep(engine, req, envs[0]).0;
      assert forall i :: 0 <= i < |envs[1..]| ==> envs[1..][i] == envs[i + 1];
      UnsettledRun(engine1, req, envs[0].newId, envs[1..]);
    }
  }

  /** An obliging engine can create under the request's name once the container found for it is gone. */
  lemma NameIsFreed(engine: Engine, req: Request, env: EngineEnv)
    requires NamesUnique(engine) && Strip(req.existingId) == "" && req.name !in engine
    requires Obliging(env) && env.newId !in engine
    ensures match Existing(engine, req)
            case None => EngineCreates(engine, req, env)
            case Some(c) => EngineCreates(engine - {c}, req, env)
  {
  }

  /** With an obliging engine, a creatable request that settles is settled after one call. */
  lemma OneCallReaches(engine: Engine, req: Request, env: EngineEnv)
    requires NamesUnique(engine) && Strip(req.existingId) == "" && Strip(req.name) != "" && req.name !in engine
    requires Creatable(req) && Settles(req) && Obliging(env) && env.newId !in engine
    ensures var (engine', r) := EnsureStep(engine, req, env);
            NamesUnique(engine') && r.Returned? && Settled(engine', req, r.value.containerId)
  {
    NameIsFreed(engine, req, env);
    CallReturns(engine, req, env);
    EnsureKeepsNamesUnique(engine, req, env);
    var (engine', r) := EnsureStep(engine, req, env);
    if r.value.createdNew {
      CreatedIsFound(engine, req, env);
      CreatedIsKept(req);
    }
  }

  lemma CallReturns(engine: Engine, req: Request, env: EngineEnv)
    requires NamesUnique(engine) && Strip(req.name) != "" && Creatable(req) && env.removes
    requires match Existing(engine, req)
             case None => EngineCreates(engine, req, env)
             case Some(c) => EngineCreates(engine - {c}, req, env)
    ensures var (engine', r) := EnsureStep(engine, req, env);
            && r.Returned?
            && (r.value.createdNew || (engine' == engine && Settled(engine, req, r.value.containerId)))
  {
    KeepsIsDecided(req);
  }

  lemma KeepsIsDecided(req: Request)
    requires Creatable(req)
    ensures RequestedSignatures(req).Returned?
  {
  }

  /** For an absolute workspace path, valid extra mounts and no read-only project mount: with an obliging engine one
      call reaches a container with exactly the requested binds, and no later call creates or removes anything. */
  lemma OneCallSettles(engine: Engine, req: Request, env: EngineEnv, envs: seq<EngineEnv>)
    requires NamesUnique(engine) && Strip(req.existingId) == "" && Strip(req.name) != "" && req.name !in engine
    requires Creatable(req) && Strip(req.workspaceHostPath) != "" && Settles(req)
    requires Obliging(env) && env.newId !in engine
    ensures var (engine', r) := EnsureStep(engine, req, env);
            && r.Returned? && NamesUnique(engine') && HasRequestedBinds(engine', req, r.value.containerId)
            && Run(engine', req, envs).0 == engine'
            && forall x :: x in Run(engine', req, envs).1 ==> x == Returned(EnsureResult(r.value.containerId, false))
  {
    OneCallReaches(engine, req, env);
    var (engine', r) := EnsureStep(engine, req, env);
    SettledRun(engine', req, r.value.containerId, envs);
    KeptHasRequestedBinds(engine', req, r.value.containerId);
  }

  predicate HasRequestedBinds(engine: Engine, req: Request, id: string) {
    id in engine && RequestedSignatures(req) == Returned(Some(Signatures(engine[id].binds)))
  }

  lemma KeptHasRequestedBinds(engine: Engine, req: Request, id: string)
    requires NamesUnique(engine) && Settled(engine, req, id) && Strip(req.workspaceHostPath) != ""
    ensures HasRequestedBinds(engine, req, id)
  {
  }

  // ---------------------------------------------------------------- single calls

  /** A call that returns leaves its container in place; a reused one has the requested binds, if the request names any,
      and a created one has the project bind and the extra mounts. */
  lemma ReturnedContainer(engine: Engine, req: Request, env: EngineEnv)
    requires NamesUnique(engine) && EnsureStep(engine, req, env).1.Returned?
    ensures var (engine', r) := EnsureStep(engine, req, env);
            && r.value.containerId in engine'
            && if r.value.createdNew then Creatable(req) && HasCreatedBinds(engine'[r.value.containerId], req)
               else engine' == engine && (RequestedSignatures(req) == Returned(None)
                                          || HasRequestedBinds(engine, req, r.value.containerId))
  {
    if EnsureStep(engine, req, env).1.value.createdNew {
      CreatedSignatures(req);
    } else {
      ReusedIsKept(engine, req, env);
    }
  }

  lemma ReusedIsKept(engine: Engine, req: Request, env: EngineEnv)
    requires NamesUnique(engine) && EnsureStep(engine, req, env).1.Returned?
    requires !EnsureStep(engine, req, env).1.value.createdNew
    ensures var (engine', r) := EnsureStep(engine, req, env);
            && engine' == engine && r.value.containerId in engine
            && Keeps(engine[r.value.containerId], req) == Returned(true)
  {
  }

  predicate HasCreatedBinds(c: Container, req: Request)
    requires Creatable(req)
  {
    var (host, readOnly) := ResolveProjectPath(req.projectMount, req.workspaceHostPath).value;
    Signatures(c.binds) == multiset{(host, PROJECT_PATH, readOnly)} + Signatures(req.extras)
  }

  /** A call that raises leaves the engine as it was, or without the container it found: it loses that one exactly when
      the requested binds differ from the container's and the engine removed it, since nothing else of the request is
      checked before the removal. */
  lemma RaisedCall(engine: Engine, req: Request, env: EngineEnv)
    requires NamesUnique(engine) && EnsureStep(engine, req, env).1.Raised?
    ensures var engine', found := EnsureStep(engine, req, env).0, Existing(engine, req);
            var loses := Strip(req.name) != "" && found.Some? && env.removes
                         && Keeps(engine[found.value], req) == Returned(false);
            engine' == if loses then engine - {found.value} else engine
  {
  }
}
