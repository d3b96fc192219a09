/** The document that persisting the route table leaves on disk. */
module RouteDocument {
  import opened Sorting
  import opened RouteAdmin

  type Routes = map<string, Row>

  function Primary(w: string, row: Row, https: bool): Router {
    Router(RuleOf(row), if https then "websecure" else "web", ServiceName(w))
  }

  function Mirror(w: string, row: Row): Router {
    Router(RuleOf(row), "web", ServiceName(w))
  }

  ghost predicate PrimariesIn(routers: map<string, Router>, routes: Routes, ids: set<string>, https: bool)
    requires ids <= routes.Keys
  {
    forall w :: w in ids ==> RouterName(w) in routers && routers[RouterName(w)] == Primary(w, routes[w], https)
  }

  ghost predicate MirrorsIn(routers: map<string, Router>, routes: Routes, ids: set<string>)
    requires ids <= routes.Keys
  {
    forall w {:trigger MirrorName(w)} :: w in ids && w + MIRROR !in ids ==>
      MirrorName(w) in routers && routers[MirrorName(w)] == Mirror(w, routes[w])
  }

  ghost predicate OnlyNamesOf(routers: map<string, Router>, ids: set<string>, https: bool) {
    forall n :: n in routers ==> exists w :: w in ids && (n == RouterName(w) || (https && n == MirrorName(w)))
  }

  /** The routers written for the given ids: a primary one each and, in HTTPS mode, a plain HTTP mirror, unless the
      mirror's name is the primary name of another id. */
  ghost predicate RoutersOf(routers: map<string, Router>, routes: Routes, ids: set<string>, https: bool)
    requires ids <= routes.Keys
  {
    && PrimariesIn(routers, routes, ids, https)
    && (https ==> MirrorsIn(routers, routes, ids))
    && OnlyNamesOf(routers, ids, https)
  }

  /** The services written for the given ids. */
  ghost predicate ServicesOf(services: map<string, string>, routes: Routes, ids: set<string>)
    requires ids <= routes.Keys
  {
    && (forall w :: w in ids ==> ServiceName(w) in services && services[ServiceName(w)] == routes[w].target)
    && (forall n :: n in services ==> exists w :: w in ids && n == ServiceName(w))
  }

  /** The document that `_persist_locked` leaves on disk for a table. */
  ghost predicate DocumentOf(doc: Document, routes: Routes, https: bool) {
    if routes == map[] then doc == EmptyDocument
    else
      && doc.Document?
      && RoutersOf(doc.routers, routes, routes.Keys, https)
      && ServicesOf(doc.services, routes, routes.Keys)
  }

  /** The router map after one more id. */
  function WithId(routers: map<string, Router>, w: string, row: Row, https: bool): map<string, Router> {
    var withPrimary := routers[RouterName(w) := Primary(w, row, https)];
    if https then withPrimary[MirrorName(w) := Mirror(w, row)] else withPrimary
  }

  lemma PrimariesNext(routers: map<string, Router>, routes: Routes, ids: set<string>, https: bool, w: string)
    requires ids <= routes.Keys && w in routes && w + MIRROR !in ids
    requires PrimariesIn(routers, routes, ids, https)
    ensures PrimariesIn(WithId(routers, w, routes[w], https), routes, ids + {w}, https)
  {
    var r := WithId(routers, w, routes[w], https);
    forall v | v in ids + {w} ensures RouterName(v) in r && r[RouterName(v)] == Primary(v, routes[v], https) {
      NamesAreInjective(v, w);
    }
  }

  lemma MirrorsNext(routers: map<string, Router>, routes: Routes, ids: set<string>, w: string)
    requires ids <= routes.Keys && w in routes && w !in ids
    requires MirrorsIn(routers, routes, ids)
    ensures MirrorsIn(WithId(routers, w, routes[w], true), routes, ids + {w})
  {
    var r := WithId(routers, w, routes[w], true);
    forall v | v in ids + {w} && v + MIRROR !in ids + {w}
      ensures MirrorName(v) in r && r[MirrorName(v)] == Mirror(v, routes[v])
    {
      NamesAreInjective(v, w);
      NamesAreInjective(w, v);
    }
  }

  lemma NamesNext(routers: map<string, Router>, row: Row, ids: set<string>, https: bool, w: string)
    requires OnlyNamesOf(routers, ids, https)
    ensures OnlyNamesOf(WithId(routers, w, row, https), ids + {w}, https)
  {
    forall n | n in WithId(routers, w, row, https)
      ensures exists v :: v in ids + {w} && (n == RouterName(v) || (https && n == MirrorName(v)))
    {
      if n in routers {
        var v :| v in ids && (n == RouterName(v) || (https && n == MirrorName(v)));
        assert v in ids + {w};
      } else {
        assert w in ids + {w};
      }
    }
  }

  /** Writing the next id in sorted order overwrites no primary router written before: the mirror of w has the name of
      the primary of w + "-http", and that id comes after w. */
  lemma RoutersNext(routers: map<string, Router>, routes: Routes, ids: set<string>, https: bool, w: string)
    requires ids <= routes.Keys && w in routes && w !in ids && w + MIRROR !in ids
    requires RoutersOf(routers, routes, ids, https)
    ensures RoutersOf(WithId(routers, w, routes[w], https), routes, ids + {w}, https)
  {
    PrimariesNext(routers, routes, ids, https, w);
    if https {
      MirrorsNext(routers, routes, ids, w);
    }
    NamesNext(routers, routes[w], ids, https, w);
  }

  lemma ServicesNext(services: map<string, string>, routes: Routes, ids: set<string>, w: string)
    requires ids <= routes.Keys && w in routes && w !in ids
    requires ServicesOf(services, routes, ids)
    ensures ServicesOf(services[ServiceName(w) := routes[w].target], routes, ids + {w})
  {
    var r := services[ServiceName(w) := routes[w].target];
    forall v | v in ids + {w} ensures ServiceName(v) in r && r[ServiceName(v)] == routes[v].target {
      NamesAreInjective(v, w);
    }
    forall n | n in r ensures exists v :: v in ids + {w} && n == ServiceName(v) {
      if n in services {
        var v :| v in ids && n == ServiceName(v);
        assert v in ids + {w};
      } else {
        assert w in ids + {w};
      }
    }
  }

  /** In sorted order an id comes after none of its own extensions. */
  lemma LaterInOrder(order: seq<string>, i: nat)
    requires IsSorted(order) && i < |order|
    ensures order[i] !in order[..i] && order[i] + MIRROR !in order[..i]
  {
    forall j | 0 <= j < i ensures order[j] != order[i] && order[j] != order[i] + MIRROR {
      LessTotal(order[j], order[i]);
      PrefixIsLess(order[i], MIRROR);
      LessTotal(order[i], order[i] + MIRROR);
    }
  }

  /** The routers after writing the ids of a list one after the other. */
  function RoutersFor(order: seq<string>, routes: Routes, https: bool): map<string, Router>
    requires forall w :: w in order ==> w in routes
  {
    if order == [] then map[]
    else
      var w := order[|order| - 1];
      WithId(RoutersFor(order[..|order| - 1], routes, https), w, routes[w], https)
  }

  function ServicesFor(order: seq<string>, routes: Routes): map<string, string>
    requires forall w :: w in order ==> w in routes
  {
    if order == [] then map[]
    else
      var w := order[|order| - 1];
      ServicesFor(order[..|order| - 1], routes)[ServiceName(w) := routes[w].target]
  }

  function Elements(order: seq<string>): set<string> {
    set w | w in order
  }

  /** Written in sorted order, every id keeps its primary router. */
  lemma {:induction false} WrittenRouters(order: seq<string>, routes: Routes, https: bool)
    requires IsSorted(order) && Elements(order) <= routes.Keys
    ensures RoutersOf(RoutersFor(order, routes, https), routes, Elements(order), https)
  {
    if order != [] {
      var n := |order| - 1;
      AllButLast(order);
      WrittenRouters(order[..n], routes, https);
      RoutersNext(RoutersFor(order[..n], routes, https), routes, Elements(order[..n]), https, order[n]);
    }
  }

  lemma {:induction false} WrittenServices(order: seq<string>, routes: Routes)
    requires IsSorted(order) && Elements(order) <= routes.Keys
    ensures ServicesOf(ServicesFor(order, routes), routes, Elements(order))
  {
    if order != [] {
      var n := |order| - 1;
      AllButLast(order);
      WrittenServices(order[..n], routes);
      ServicesNext(ServicesFor(order[..n], routes), routes, Elements(order[..n]), order[n]);
    }
  }

  lemma AllButLast(order: seq<string>)
    requires IsSorted(order) && order != []
    ensures var n := |order| - 1;
            && IsSorted(order[..n]) && Elements(order) == Elements(order[..n]) + {order[n]}
            && order[n] !in Elements(order[..n]) && order[n] + MIRROR !in Elements(order[..n])
  {
    var n := |order| - 1;
    LaterInOrder(order, n);
    assert order == order[..n] + [order[n]];
  }
}
