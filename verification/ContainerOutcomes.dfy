/** What single ensure calls do, told from the texts of their requests. */
module ContainerOutcomes {
  import opened Wrappers
  import opened Text
  import opened ContainerEnsure

  // ---------------------------------------------------------------- paths

  predicate AllSlashes(s: string) {
    forall i :: 0 <= i < |s| ==> s[i] == '/'
  }

  lemma {:induction false} StripSlashesDrops(s: string, slashes: string)
    requires AllSlashes(slashes) && (s == "" || s[|s| - 1] != '/')
    ensures StripSlashes(s + slashes) == s
  {
    if slashes == "" {
      assert s + slashes == s;
    } else {
      assert (s + slashes)[..|s + slashes| - 1] == s + slashes[..|slashes| - 1];
      StripSlashesDrops(s, slashes[..|slashes| - 1]);
    }
  }

  /** Two destinations count as one when they differ in the white space around them and the slashes at their ends. */
  lemma DestKeyOutcome(left: string, dest: string, slashes: string, right: string)
    requires AllSpace(left) && AllSpace(right) && AllSlashes(slashes)
    requires Trimmed(dest) && (dest == "" || dest[|dest| - 1] != '/')
    ensures DestKey(left + (dest + slashes) + right) == if dest == "" then "/" else dest
    ensures StripSlashes(Strip(left + (dest + slashes) + right)) == dest
  {
    var s := dest + slashes;
    assert s != "" ==> !IsSpace(s[0]) && !IsSpace(s[|s| - 1]);
    StripDrops(left, s, right);
    StripSlashesDrops(dest, slashes);
  }

  /** An extra mount is refused exactly when it lacks a host or a destination, or is on the project path. */
  lemma AcceptedMount(left: string, host: string, dest: string, slashes: string, right: string, readOnly: bool)
    requires AllSpace(left) && AllSpace(right) && AllSlashes(slashes) && Trimmed(host)
    requires Trimmed(dest) && (dest == "" || dest[|dest| - 1] != '/')
    ensures var b := Bind(left + host + right, left + (dest + slashes) + right, readOnly);
            && (Acceptable(b) <==> host != "" && dest + slashes != "" && dest != "/home/coder/project")
            && ContainerEnsure.Cleaned(b) == Bind(host, dest + slashes, readOnly)
            && SignatureOf(b) == (host, dest, readOnly)
  {
    var s := dest + slashes;
    assert s != "" ==> !IsSpace(s[0]) && !IsSpace(s[|s| - 1]);
    StripDrops(left, host, right);
    StripDrops(left, s, right);
    DestKeyOutcome(left, dest, slashes, right);
    assert "/" != PROJECT_PATH by {
      assert |"/"| == 1;
    }
  }

  /** The project mount comes from the argument that names a directory; when both do, they must agree, and the directory
      must be absolute. */
  lemma ProjectPathOutcome(mount: Option<ProjectMount>, path: string, left: string, right: string)
    requires AllSpace(left) && AllSpace(right) && Trimmed(path) && (mount.Some? ==> Trimmed(mount.value.host))
    ensures var padded := if mount.None? then None
                          else Some(ProjectMount(left + mount.value.host + right, mount.value.readOnly));
            var host := if mount.None? then "" else mount.value.host;
            var r := ResolveProjectPath(padded, left + path + right);
            && (r.Returned? <==>
                  || (host == "" && path != "" && path[0] == '/')
                  || (host != "" && host[0] == '/' && (path == "" || path == host)))
            && (r.Returned? ==> r.value == (if host == "" then path else host, mount.Some? && mount.value.readOnly))
  {
    StripDrops(left, path, right);
    if mount.Some? {
      StripDrops(left, mount.value.host, right);
    }
  }

  // ---------------------------------------------------------------- which container

  /** A container with the given id is the one a call is about, whatever the names; without an id, the one with the
      request's name. */
  lemma GivenIdWins(engine: Engine, req: Request, left: string, id: string, right: string)
    requires NamesUnique(engine) && req.existingId == left + id + right
    requires AllSpace(left) && Trimmed(id) && AllSpace(right)
    ensures id != "" && id in engine ==> Existing(engine, req) == Some(id)
    ensures id == "" && req.name !in engine ==>
              forall c :: c in engine ==> (Existing(engine, req) == Some(c) <==> engine[c].name == req.name)
    ensures id == "" && req.name in engine ==> Existing(engine, req) == Some(req.name)
    ensures Existing(engine, req).None? <==>
              && req.name !in engine && (forall c :: c in engine ==> engine[c].name != req.name)
              && (id != "" ==> id !in engine && forall c :: c in engine ==> engine[c].name != id)
  {
    StripDrops(left, id, right);
  }

  // ---------------------------------------------------------------- creating

  /** No two mounts have one destination. */
  predicate Apart(extras: seq<Bind>) {
    forall i, j :: 0 <= i < j < |extras| ==> DestKey(extras[i].dest) != DestKey(extras[j].dest)
  }

  /** On an engine without containers a call creates one exactly when the request names it, has a usable project path,
      positive limits and container ports and acceptable extra mounts, and the engine has the image or can pull it and
      creates the container. It then has the given name and its binds in order. */
  lemma FreshCallExactly(req: Request, env: EngineEnv)
    ensures var (engine', r) := EnsureStep(map[], req, env);
            var path := ResolveProjectPath(req.projectMount, req.workspaceHostPath);
            && (r.Returned? <==>
                  && Strip(req.name) != "" && path.Returned?
                  && (req.cpuLimit == None || req.cpuLimit.value > 0.0)
                  && (req.memoryLimit == None || req.memoryLimit.value > 0)
                  && (req.pidsLimit == None || req.pidsLimit.value > 0)
                  && (forall p :: p in req.ports ==> p.1 > 0)
                  && (forall i :: 0 <= i < |req.extras| ==> Acceptable(req.extras[i])) && Apart(req.extras)
                  && (env.imageMissing ==> env.pulls) && env.creates)
            && (r.Raised? ==> engine' == map[])
            && (r.Returned? ==>
                  && r.value == EnsureResult(env.newId, true)
                  && engine'.Keys == {env.newId} && engine'[env.newId].name == req.name
                  && var binds := engine'[env.newId].binds;
                     && |binds| == 1 + |req.extras|
                     && binds[0] == Bind(path.value.0, "/home/coder/project", path.value.1)
                     && forall i :: 0 <= i < |req.extras| ==>
                          var e := req.extras[i]; binds[i + 1] == Bind(Strip(e.host), Strip(e.dest), e.readOnly))
  {
    PortsAreRefused(req.ports);
    ValidMeansDistinct(req.extras);
  }

  // ---------------------------------------------------------------- comparing

  /** A request that names the workspace path and no extra mounts keeps a container with one bind exactly when that bind
      mounts the path writable on the project path. */
  lemma OneBindIsKept(req: Request, b: Bind, path: string, dest: string, slashes: string, left: string, right: string)
    requires AllSpace(left) && AllSpace(right) && AllSlashes(slashes) && Trimmed(path) && path != "" && path[0] == '/'
    requires Trimmed(dest) && (dest == "" || dest[|dest| - 1] != '/')
    requires req.workspaceHostPath == left + path + right && req.extras == []
    requires b.dest == left + (dest + slashes) + right
    ensures Keeps(Container(req.name, [b]), req)
            == Returned(Strip(b.host) == path && dest == "/home/coder/project" && !b.readOnly)
  {
    StripDrops(left, path, right);
    DestKeyOutcome(left, dest, slashes, right);
    assert Signatures(req.extras) == multiset{};
    OneSignature(b);
    var wanted := (path, PROJECT_PATH, false);
    assert multiset{wanted} + multiset{} == multiset{wanted};
    SinglesDecide(SignatureOf(b), wanted);
  }

  lemma OneSignature(b: Bind)
    ensures Signatures([b]) == multiset{SignatureOf(b)}
  {
    assert seq(1, i requires 0 <= i < 1 => SignatureOf([b][i])) == [SignatureOf(b)];
  }

  lemma SinglesDecide<T>(a: T, b: T)
    ensures multiset{a} == multiset{b} <==> a == b
  {
    if multiset{a} == multiset{b} {
      assert multiset{a}[a] == 1;
    }
  }

  function Mapped(binds: seq<Bind>): (r: seq<Signature>)
    ensures |r| == |binds| && multiset(r) == Signatures(binds)
  {
    seq(|binds|, i requires 0 <= i < |binds| => SignatureOf(binds[i]))
  }

  lemma HeadMapped(binds: seq<Bind>)
    requires binds != []
    ensures Signatures(binds) == multiset{SignatureOf(binds[0])} + Signatures(binds[1..])
  {
    assert Mapped(binds) == [SignatureOf(binds[0])] + Mapped(binds[1..]);
  }

  function Without(binds: seq<Bind>, i: nat): seq<Bind>
    requires i < |binds|
  {
    binds[..i] + binds[i + 1..]
  }

  lemma WithoutLater(binds: seq<Bind>, i: nat)
    requires 0 < i < |binds|
    ensures Without(binds, i) != [] && Without(binds, i)[0] == binds[0]
    ensures Without(binds, i)[1..] == Without(binds[1..], i - 1)
  {
  }

  lemma {:induction false} TakenOut(binds: seq<Bind>, i: nat)
    requires i < |binds|
    ensures Signatures(binds) == multiset{SignatureOf(binds[i])} + Signatures(Without(binds, i))
  {
    HeadMapped(binds);
    if i == 0 {
      assert Without(binds, 0) == binds[1..];
    } else {
      TakenOut(binds[1..], i - 1);
      WithoutLater(binds, i);
      HeadMapped(Without(binds, i));
    }
  }

  lemma WithoutOne(binds: seq<Bind>, i: nat)
    requires i < |binds|
    ensures multiset(Without(binds, i)) == multiset(binds) - multiset{binds[i]}
  {
    assert binds == binds[..i] + ([binds[i]] + binds[i + 1..]);
  }

  /** The order in which a container reports its binds plays no part. */
  lemma {:induction false} OrderPlaysNoPart(a: seq<Bind>, b: seq<Bind>)
    requires multiset(a) == multiset(b)
    ensures Signatures(a) == Signatures(b)
    decreases |a|
  {
    if a == [] {
      assert |multiset(b)| == 0;
      assert b == [];
    } else {
      assert a[0] in multiset(a);
      var i :| 0 <= i < |b| && b[i] == a[0];
      WithoutOne(a, 0);
      WithoutOne(b, i);
      OrderPlaysNoPart(Without(a, 0), Without(b, i));
      TakenOut(a, 0);
      TakenOut(b, i);
    }
  }

  lemma KeptInAnyOrder(name: string, a: seq<Bind>, b: seq<Bind>, req: Request)
    requires multiset(a) == multiset(b)
    ensures Keeps(Container(name, a), req) == Keeps(Container(name, b), req)
  {
    OrderPlaysNoPart(a, b);
  }
}
