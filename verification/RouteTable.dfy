/** The route table in memory, its document on disk, and the calls that change both. */
module RouteTable {
  import opened Wrappers
  import opened Text
  import opened Sorting
  import opened RouteAdmin
  import opened RouteDocument

  // ---------------------------------------------------------------- hydrate

  function WidsOf(routers: map<string, Router>): set<string> {
    set n | n in routers && WidFromRouterName(n).Some? :: WidFromRouterName(n).value
  }

  /** The rule kept for an id: its primary router's, else its mirror's. */
  function RuleFor(routers: map<string, Router>, w: string): Option<string> {
    if RouterName(w) in routers then Some(routers[RouterName(w)].rule)
    else if MirrorName(w) in routers then Some(routers[MirrorName(w)].rule)
    else None
  }

  function HydratedRow(routers: map<string, Router>, services: map<string, string>, w: string): Option<Row> {
    match RuleFor(routers, w)
    case None => None
    case Some(rule) =>
      match ParseRule(rule)
      case None => None
      case Some((host, prefix)) =>
        if ServiceName(w) !in services then None
        else
          match NormalizeTarget(services[ServiceName(w)])
          case None => None
          case Some(target) => Some(Row(host, target, prefix))
  }

  function HydratedFrom(routers: map<string, Router>, services: map<string, string>): Routes {
    map w | w in WidsOf(routers) && HydratedRow(routers, services, w).Some? :: HydratedRow(routers, services, w).value
  }

  function Hydrated(doc: Document): Routes {
    match doc
    case EmptyDocument => map[]
    case Document(routers, services) => HydratedFrom(routers, services)
  }

  // ---------------------------------------------------------------- the calls

  /** What `register_route` makes of a request body; None is a 400 reply. */
  function Registered(workspaceId: string, publicHost: string, target: string, pathPrefix: string)
    : Option<(string, Row)>
  {
    var w := Strip(workspaceId);
    if !MatchesSafeWid(w) then None
    else
      match NormalizeTarget(target)
      case None => None
      case Some(t) => Some((w, Row(Strip(publicHost), t, Strip(pathPrefix))))
  }

  class RouteAdminApp {
    var https: bool
    var routes: Routes
    var disk: Document

    constructor (https: bool)
      ensures this.https == https && routes == map[] && disk == EmptyDocument
    {
      this.https := https;
      routes, disk := map[], EmptyDocument;
    }

    method Persist()
      modifies this`disk
      ensures DocumentOf(disk, routes, https)
    {
      if routes == map[] {
        disk := EmptyDocument;
        return;
      }
      var routers, services := BuildDocument();
      disk := Document(routers, services);
    }

    method BuildDocument() returns (routers: map<string, Router>, services: map<string, string>)
      ensures RoutersOf(routers, routes, routes.Keys, https) && ServicesOf(services, routes, routes.Keys)
    {
      var order := SortedKeys(routes.Keys);
      routers, services := map[], map[];
      for i := 0 to |order|
        invariant routers == RoutersFor(order[..i], routes, https)
        invariant services == ServicesFor(order[..i], routes)
      {
        var w := order[i];
        assert order[..i + 1][..i] == order[..i];
        routers := routers[RouterName(w) := Primary(w, routes[w], https)];
        if https {
          routers := routers[MirrorName(w) := Mirror(w, routes[w])];
        }
        services := services[ServiceName(w) := routes[w].target];
      }
      assert order[..|order|] == order;
      assert Elements(order) == routes.Keys;
      WrittenRouters(order, routes, https);
      WrittenServices(order, routes);
    }

    method Register(workspaceId: string, publicHost: string, target: string, pathPrefix: string) returns (ok: bool)
      modifies this`routes, this`disk
      ensures var r := Registered(workspaceId, publicHost, target, pathPrefix);
              && ok == r.Some?
              && (if ok then routes == old(routes)[r.value.0 := r.value.1] && DocumentOf(disk, routes, https)
                  else routes == old(routes) && disk == old(disk))
    {
      var w := Strip(workspaceId);
      if !MatchesSafeWid(w) {
        return false;
      }
      var t := NormalizeTarget(target);
      if t.None? {
        return false;
      }
      routes := routes[w := Row(Strip(publicHost), t.value, Strip(pathPrefix))];
      Persist();
      ok := true;
    }

    method Deregister(workspaceId: string) returns (ok: bool)
      modifies this`routes, this`disk
      ensures ok == (Strip(workspaceId) != "")
      ensures if ok then routes == old(routes) - {Strip(workspaceId)} && DocumentOf(disk, routes, https)
              else routes == old(routes) && disk == old(disk)
    {
      var w := Strip(workspaceId);
      if w == "" {
        return false;
      }
      routes := routes - {w};
      Persist();
      ok := true;
    }

    /** A new process, in either mode, starts with an empty table and loads the document. */
    method Restart(newHttps: bool)
      modifies this
      ensures https == newHttps && disk == old(disk) && routes == Hydrated(disk)
    {
      https := newHttps;
      routes := map[];
      if disk.Document? {
        routes := Hydrate(disk.routers, disk.services);
      }
    }

    method Hydrate(routers: map<string, Router>, services: map<string, string>) returns (loaded: Routes)
      ensures loaded == HydratedFrom(routers, services)
    {
      loaded := map[];
      var todo := WidsOf(routers);
      while todo != {}
        invariant todo <= WidsOf(routers)
        invariant loaded == map w | w in WidsOf(routers) - todo && HydratedRow(routers, services, w).Some?
                                  :: HydratedRow(routers, services, w).value
      {
        var w :| w in todo;
        todo := todo - {w};
        var row := HydratedRow(routers, services, w);
        if row.Some? {
          loaded := loaded[w := row.value];
        }
      }
      assert WidsOf(routers) - todo == WidsOf(routers);
    }
  }

  // ---------------------------------------------------------------- round trip

  /** What every registered row satisfies. */
  predicate Normal(w: string, row: Row) {
    SafeWid(w) && Trimmed(row.host) && Trimmed(row.prefix) && NormalizeTarget(row.target) == Some(row.target)
  }

  lemma RegisteredIsNormal(workspaceId: string, publicHost: string, target: string, pathPrefix: string)
    ensures var r := Registered(workspaceId, publicHost, target, pathPrefix);
            r.Some? ==> Normal(r.value.0, r.value.1)
  {
    var a, b := StripSlice(workspaceId);
    var c, d := StripSlice(publicHost);
    var e, f := StripSlice(pathPrefix);
    NormalizeTwice(target);
  }

  /** A rule that can be read back. */
  predicate Readable(row: Row) {
    row.host != "" && '`' !in row.host && '`' !in row.prefix
  }

  /** Whether a row survives: its rule must be readable, and in HTTP mode its id must not end in "-http", unless the id
      with one more "-http" is routed too. */
  predicate Survives(routes: Routes, w: string, https: bool)
    requires w in routes
  {
    Readable(routes[w]) && (https || !EndsWith(w, MIRROR) || w + MIRROR in routes)
  }

  lemma PrimaryNameLosesSuffix(w: string)
    ensures EndsWith(w, MIRROR) ==> WidFromRouterName(RouterName(w)) != Some(w)
  {
    assert RouterName(w)[|NAME_PREFIX|..] == w;
  }

  lemma IdIsFound(routers: map<string, Router>, routes: Routes, https: bool, w: string)
    requires RoutersOf(routers, routes, routes.Keys, https) && w in routes && SafeWid(w)
    ensures w in WidsOf(routers) <==> (https || !EndsWith(w, MIRROR) || w + MIRROR in routes)
  {
    WidOfNames(w);
    NamesAreInjective(w + MIRROR, w);
    if https {
      assert MirrorName(w) in routers;
    } else if !EndsWith(w, MIRROR) {
      assert RouterName(w) in routers;
    } else if w + MIRROR in routes {
      assert RouterName(w + MIRROR) in routers;
    } else {
      forall n | n in routers ensures n != MirrorName(w) {
        var v :| v in routes && n == RouterName(v);
        NamesAreInjective(v, w);
      }
      PrimaryNameLosesSuffix(w);
      forall n | n in routers ensures WidFromRouterName(n) != Some(w) {
        NamesOfWid(n, w);
      }
    }
  }

  lemma HydratedAt(routers: map<string, Router>, services: map<string, string>, w: string)
    ensures w in HydratedFrom(routers, services)
            <==> w in WidsOf(routers) && HydratedRow(routers, services, w).Some?
    ensures w in HydratedFrom(routers, services) ==>
              HydratedFrom(routers, services)[w] == HydratedRow(routers, services, w).value
  {
  }

  /** The row read from a rule and a target is the row written exactly when the rule is readable. */
  lemma RowFromRule(routers: map<string, Router>, services: map<string, string>, w: string, row: Row)
    requires Normal(w, row) && RuleFor(routers, w) == Some(RuleOf(row))
    requires ServiceName(w) in services && services[ServiceName(w)] == row.target
    ensures HydratedRow(routers, services, w) == Some(row) <==> Readable(row)
  {
    RuleRoundTrip(row);
  }

  /** Hydrating the persisted document gives back a row exactly when it survives. */
  lemma RowRoundTrip(doc: Document, routes: Routes, https: bool, w: string)
    requires DocumentOf(doc, routes, https) && w in routes && Normal(w, routes[w])
    ensures Restores(Hydrated(doc), routes, w) <==> Survives(routes, w, https)
  {
    IdIsFound(doc.routers, routes, https, w);
    PrimaryRuleIsKept(doc.routers, routes, https, w);
    HydratedAt(doc.routers, doc.services, w);
    RowFromRule(doc.routers, doc.services, w, routes[w]);
  }

  lemma PrimaryRuleIsKept(routers: map<string, Router>, routes: Routes, https: bool, w: string)
    requires PrimariesIn(routers, routes, routes.Keys, https) && w in routes
    ensures RuleFor(routers, w) == Some(RuleOf(routes[w]))
  {
    assert routers[RouterName(w)] == Primary(w, routes[w], https);
  }

  /** Hydrating invents no route. */
  lemma NoNewRoutes(doc: Document, routes: Routes, https: bool)
    requires DocumentOf(doc, routes, https)
    ensures Hydrated(doc).Keys <= routes.Keys
  {
    forall w | w in Hydrated(doc) ensures w in routes {
      var v :| v in routes && ServiceName(w) == ServiceName(v);
      NamesAreInjective(v, w);
    }
  }

  /** Tables of readable rows, in HTTP mode under ids that do not end in "-http". */
  predicate Lasting(routes: Routes, https: bool) {
    forall w :: w in routes ==> Readable(routes[w]) && (https || !EndsWith(w, MIRROR))
  }

  predicate Restores(hydrated: Routes, routes: Routes, w: string)
    requires w in routes
  {
    w in hydrated && hydrated[w] == routes[w]
  }

  /** Discarding memory and hydrating gives back exactly the table, in either mode, if and only if every row is readable
      and, in HTTP mode, no id ends in "-http". */
  lemma TableRoundTrip(doc: Document, routes: Routes, https: bool)
    requires DocumentOf(doc, routes, https) && forall w :: w in routes ==> Normal(w, routes[w])
    ensures Hydrated(doc) == routes
            <==> Lasting(routes, https)
  {
    AllOrNothing(doc, routes, https, Hydrated(doc));
  }

  lemma AllOrNothing(doc: Document, routes: Routes, https: bool, hydrated: Routes)
    requires DocumentOf(doc, routes, https) && forall w :: w in routes ==> Normal(w, routes[w])
    requires hydrated == Hydrated(doc)
    ensures hydrated == routes
            <==> Lasting(routes, https)
  {
    EveryRow(doc, routes, https, hydrated);
    NoNewRoutes(doc, routes, https);
    RowsDecide(hydrated, routes, https);
  }

  lemma EveryRow(doc: Document, routes: Routes, https: bool, hydrated: Routes)
    requires DocumentOf(doc, routes, https) && forall w :: w in routes ==> Normal(w, routes[w])
    requires hydrated == Hydrated(doc)
    ensures forall w :: w in routes ==> (Restores(hydrated, routes, w) <==> Survives(routes, w, https))
  {
    forall w | w in routes ensures Restores(hydrated, routes, w) <==> Survives(routes, w, https) {
      RowRoundTrip(doc, routes, https, w);
    }
  }

  lemma RowsDecide(hydrated: Routes, routes: Routes, https: bool)
    requires hydrated.Keys <= routes.Keys
    requires forall w :: w in routes ==> (Restores(hydrated, routes, w) <==> Survives(routes, w, https))
    requires forall w :: w in routes ==> SafeWid(w)
    ensures hydrated == routes
            <==> Lasting(routes, https)
  {
    SurvivalOfAll(routes, https);
    if forall w :: w in routes ==> Survives(routes, w, https) {
      assert forall w :: w in routes ==> Restores(hydrated, routes, w);
    }
  }

  lemma SurvivalOfAll(routes: Routes, https: bool)
    requires forall w :: w in routes ==> SafeWid(w)
    ensures (forall w :: w in routes ==> Survives(routes, w, https))
            <==> Lasting(routes, https)
  {
    if !https && forall w :: w in routes ==> Survives(routes, w, https) {
      forall w | w in routes ensures !EndsWith(w, MIRROR) {
        MirroredIdsRunOut(routes, w, 128);
      }
    }
  }

  /** Ids are at most 128 characters long, so not every id ending in "-http" can have its longer sibling routed. */
  lemma {:induction false} MirroredIdsRunOut(routes: Routes, w: string, room: nat)
    requires forall v :: v in routes ==> |v| <= 128
    requires forall v :: v in routes && EndsWith(v, MIRROR) ==> v + MIRROR in routes
    requires w in routes && |w| + room >= 128
    ensures !EndsWith(w, MIRROR)
    decreases room
  {
    if EndsWith(w, MIRROR) {
      var longer := w + MIRROR;
      assert longer[|longer| - |MIRROR|..] == MIRROR;
      assert |longer| <= 128;
      MirroredIdsRunOut(routes, longer, room - 1);
    }
  }

  // ---------------------------------------------------------------- runs

  datatype State = State(routes: Routes, disk: Document, https: bool)

  datatype Step =
    | RegisterStep(workspaceId: string, publicHost: string, target: string, pathPrefix: string)
    | DeregisterStep(workspaceId: string)
    | RestartStep(https: bool)

  /** The effect of one call, as the contracts of the methods state it. */
  ghost predicate Moves(st: State, s: Step, st': State) {
    match s
    case RegisterStep(id, host, target, prefix) =>
      var r := Registered(id, host, target, prefix);
      st'.https == st.https
      && if r.None? then st' == st
         else st'.routes == st.routes[r.value.0 := r.value.1] && DocumentOf(st'.disk, st'.routes, st'.https)
    case DeregisterStep(id) =>
      st'.https == st.https
      && if Strip(id) == "" then st' == st
         else st'.routes == st.routes - {Strip(id)} && DocumentOf(st'.disk, st'.routes, st'.https)
    case RestartStep(https) => st' == State(Hydrated(st.disk), st.disk, https)
  }

  ghost predicate MovesAt(states: seq<State>, steps: seq<Step>, i: nat)
    requires |states| == |steps| + 1 && i < |steps|
  {
    Moves(states[i], steps[i], states[i + 1])
  }

  ghost predicate IsRun(states: seq<State>, steps: seq<Step>) {
    && |states| == |steps| + 1
    && states[0].routes == map[] && states[0].disk == EmptyDocument
    && forall i: nat :: i < |steps| ==> MovesAt(states, steps, i)
  }

  /** The call writes the document. */
  predicate Persists(s: Step) {
    match s
    case RegisterStep(id, host, target, prefix) => Registered(id, host, target, prefix).Some?
    case DeregisterStep(id) => Strip(id) != ""
    case RestartStep(_) => false
  }

  predicate AllNormal(routes: Routes) {
    forall w :: w in routes ==> Normal(w, routes[w])
  }

  /** The table, and the one that the document was last written for, hold only rows that can be registered. */
  ghost predicate Known(st: State) {
    AllNormal(st.routes) && exists table, https :: AllNormal(table) && DocumentOf(st.disk, table, https)
  }

  lemma HydratedIsNormal(doc: Document, table: Routes, https: bool)
    requires AllNormal(table) && DocumentOf(doc, table, https)
    ensures AllNormal(Hydrated(doc))
  {
    if doc.Document? {
      NoNewRoutes(doc, table, https);
      forall w | w in Hydrated(doc) ensures Normal(w, Hydrated(doc)[w]) {
        HydratedAt(doc.routers, doc.services, w);
        RowIsNormal(doc.routers, doc.services, w);
        assert Normal(w, table[w]);
      }
    }
  }

  lemma RowIsNormal(routers: map<string, Router>, services: map<string, string>, w: string)
    requires HydratedRow(routers, services, w).Some?
    ensures var row := HydratedRow(routers, services, w).value;
            Trimmed(row.host) && Trimmed(row.prefix) && NormalizeTarget(row.target) == Some(row.target)
  {
    ParsedIsTrimmed(RuleFor(routers, w).value);
    NormalizeTwice(services[ServiceName(w)]);
  }

  lemma MoveStaysKnown(st: State, s: Step, st': State)
    requires Known(st) && Moves(st, s, st')
    ensures Known(st')
  {
    if s.RestartStep? {
      var table, https :| AllNormal(table) && DocumentOf(st.disk, table, https);
      HydratedIsNormal(st.disk, table, https);
    } else if Persists(s) {
      if s.RegisterStep? {
        RegisteredIsNormal(s.workspaceId, s.publicHost, s.target, s.pathPrefix);
      }
      assert AllNormal(st'.routes) && DocumentOf(st'.disk, st'.routes, st'.https);
    }
  }

  lemma {:induction false} RunStaysKnown(states: seq<State>, steps: seq<Step>, i: nat)
    requires IsRun(states, steps) && i <= |steps|
    ensures Known(states[i])
  {
    if i == 0 {
      assert DocumentOf(states[0].disk, states[0].routes, true);
    } else {
      RunStaysKnown(states, steps, i - 1);
      assert MovesAt(states, steps, i - 1);
      MoveStaysKnown(states[i - 1], steps[i - 1], states[i]);
    }
  }

  predicate Agrees(st: State) {
    Hydrated(st.disk) == st.routes
  }

  /** After a call that persists, whatever the requests before it, memory and document agree exactly if the table is
      lasting; a restart makes them agree, and a refused call changes nothing. */
  lemma StepAgreesExactly(states: seq<State>, steps: seq<Step>, i: nat)
    requires IsRun(states, steps) && i < |steps|
    ensures Persists(steps[i]) ==> (Agrees(states[i + 1]) <==> Lasting(states[i + 1].routes, states[i + 1].https))
    ensures !Persists(steps[i]) && !steps[i].RestartStep? ==> states[i + 1] == states[i]
    ensures steps[i].RestartStep? ==> Agrees(states[i + 1])
  {
    assert MovesAt(states, steps, i);
    RunStaysKnown(states, steps, i + 1);
    if Persists(steps[i]) {
      TableRoundTrip(states[i + 1].disk, states[i + 1].routes, states[i + 1].https);
    }
  }

  /** If call j persists a table, the table is lasting in the mode of its process. */
  predicate WritesLasting(states: seq<State>, steps: seq<Step>, j: nat)
    requires |states| == |steps| + 1 && j < |steps|
  {
    Persists(steps[j]) ==> Lasting(states[j + 1].routes, states[j + 1].https)
  }

  /** So over any run of arbitrary requests and restarts, in whichever modes: memory and document agree throughout if
      and only if every table that was persisted was lasting. */
  lemma RunAgreesExactly(states: seq<State>, steps: seq<Step>)
    requires IsRun(states, steps)
    ensures (forall i :: 0 <= i <= |steps| ==> Agrees(states[i]))
            <==> forall j: nat :: j < |steps| ==> WritesLasting(states, steps, j)
  {
    if forall i :: 0 <= i <= |steps| ==> Agrees(states[i]) {
      forall j: nat | j < |steps| ensures WritesLasting(states, steps, j) {
        StepAgreesExactly(states, steps, j);
      }
    }
    if forall j: nat :: j < |steps| ==> WritesLasting(states, steps, j) {
      forall i | 0 <= i <= |steps| ensures Agrees(states[i]) {
        AgreesAt(states, steps, i);
      }
    }
  }

  lemma {:induction false} HoldsThroughout(holds: seq<bool>, i: nat)
    requires i < |holds| && holds[0]
    requires forall j: nat :: j + 1 < |holds| && holds[j] ==> holds[j + 1]
    ensures holds[i]
  {
    if i > 0 {
      HoldsThroughout(holds, i - 1);
    }
  }

  lemma AgreesAt(states: seq<State>, steps: seq<Step>, i: nat)
    requires IsRun(states, steps) && i <= |steps|
    requires forall j: nat :: j < |steps| ==> WritesLasting(states, steps, j)
    ensures Agrees(states[i])
  {
    var holds := seq(|states|, j requires 0 <= j < |states| => Agrees(states[j]));
    forall j: nat | j + 1 < |holds| && holds[j] ensures holds[j + 1] {
      AgreesNext(states, steps, j);
    }
    HoldsThroughout(holds, i);
  }

  lemma AgreesNext(states: seq<State>, steps: seq<Step>, i: nat)
    requires IsRun(states, steps) && i < |steps| && Agrees(states[i]) && WritesLasting(states, steps, i)
    ensures Agrees(states[i + 1])
  {
    StepAgreesExactly(states, steps, i);
  }

  /** Requests that register only readable rows and, unless every process runs in HTTPS mode, no id ending in "-http".
      */
  predicate CarefulStep(s: Step, httpsOnly: bool) {
    s.RegisterStep? ==>
      var r := Registered(s.workspaceId, s.publicHost, s.target, s.pathPrefix);
      r.Some? ==> Readable(r.value.1) && (httpsOnly || !EndsWith(r.value.0, MIRROR))
  }

  lemma CarefulStaysLasting(st: State, s: Step, st': State, httpsOnly: bool)
    requires Moves(st, s, st') && CarefulStep(s, httpsOnly) && Lasting(st.routes, httpsOnly) && Agrees(st)
    ensures Lasting(st'.routes, httpsOnly)
  {
  }

  /** Request j is careful, and the process after it runs in HTTPS mode if all are to. */
  predicate CarefulAt(states: seq<State>, steps: seq<Step>, httpsOnly: bool, j: nat)
    requires |states| == |steps| + 1 && j < |steps|
  {
    CarefulStep(steps[j], httpsOnly) && (httpsOnly ==> states[j + 1].https)
  }

  lemma SyncedNext(states: seq<State>, steps: seq<Step>, httpsOnly: bool, i: nat)
    requires IsRun(states, steps) && i < |steps| && CarefulAt(states, steps, httpsOnly, i)
    requires Agrees(states[i]) && Lasting(states[i].routes, httpsOnly)
    ensures Agrees(states[i + 1]) && Lasting(states[i + 1].routes, httpsOnly)
  {
    assert MovesAt(states, steps, i);
    CarefulStaysLasting(states[i], steps[i], states[i + 1], httpsOnly);
    AgreesNext(states, steps, i);
  }

  /** In every run of careful requests and restarts memory and document agree: hydrating gives back the table. */
  lemma RunsStaySynced(states: seq<State>, steps: seq<Step>, httpsOnly: bool, i: nat)
    requires IsRun(states, steps) && i <= |steps|
    requires forall j: nat :: j < |steps| ==> CarefulAt(states, steps, httpsOnly, j)
    ensures Agrees(states[i]) && Lasting(states[i].routes, httpsOnly)
  {
    var holds := seq(|states|, j requires 0 <= j < |states| => Agrees(states[j]) && Lasting(states[j].routes, httpsOnly));
    forall j: nat | j + 1 < |holds| && holds[j] ensures holds[j + 1] {
      SyncedNext(states, steps, httpsOnly, j);
    }
    HoldsThroughout(holds, i);
  }
}
