/** Dispatching a request over static and dynamic routes. */
module Routing {

  import opened RouteMatches

  /** A route as the router sees it: its kind, and what it answers to each request. */
  datatype BaseRoute<!Q, +A> = BaseRoute(isStatic: bool, handler: Q -> RouteMatchResult<A>)

  datatype Outcome<!Q, +A> = Matched(route: BaseRoute<Q, A>) | MethodNotAllowed | NotFound

  function OfKind<Q, A>(routes: seq<BaseRoute<Q, A>>, isStatic: bool): seq<BaseRoute<Q, A>> {
    if routes == [] then []
    else
      OfKind(routes[..|routes| - 1], isStatic) +
      if routes[|routes| - 1].isStatic == isStatic then [routes[|routes| - 1]] else []
  }

  /** r is the first route that matches. */
  ghost predicate First<Q, A>(routes: seq<BaseRoute<Q, A>>, q: Q, r: BaseRoute<Q, A>) {
    exists i :: 0 <= i < |routes| && routes[i] == r && r.handler(q).RouteMatched? &&
                forall j :: 0 <= j < i ==> !routes[j].handler(q).RouteMatched?
  }

  /** o is the right answer over the routes in this order: the first match, else 405 if any route knew the path. */
  ghost predicate Answers<Q, A>(routes: seq<BaseRoute<Q, A>>, q: Q, o: Outcome<Q, A>) {
    match o
    case Matched(route) => First(routes, q, route)
    case MethodNotAllowed =>
      && (forall r :: r in routes ==> !r.handler(q).RouteMatched?)
      && exists r :: r in routes && r.handler(q).MethodNotMatched?
    case NotFound => forall r :: r in routes ==> r.handler(q).PathNotMatched?
  }

  class Router<Q, A> {
    var staticRoutes: seq<BaseRoute<Q, A>>
    var routes: seq<BaseRoute<Q, A>>

    /** Separates the routes by kind, each kind in its given order. */
    constructor (all: seq<BaseRoute<Q, A>>)
      ensures staticRoutes == OfKind(all, true) && routes == OfKind(all, false)
    {
      staticRoutes, routes := [], [];
      new;
      for i := 0 to |all|
        invariant staticRoutes == OfKind(all[..i], true) && routes == OfKind(all[..i], false)
      {
        assert all[..i + 1][..i] == all[..i];
        if all[i].isStatic {
          staticRoutes := staticRoutes + [all[i]];
        } else {
          routes := routes + [all[i]];
        }
      }
      assert all[..|all|] == all;
    }

    /** Static routes first, then dynamic ones; 405 if some route knew the path but not the method, else 404. */
    method GetHandler(q: Q) returns (o: Outcome<Q, A>)
      ensures Answers(staticRoutes + routes, q, o)
    {
      var methodNotFound := false;
      for i := 0 to |staticRoutes|
        invariant forall j :: 0 <= j < i ==> !staticRoutes[j].handler(q).RouteMatched?
        invariant methodNotFound <==> exists j :: 0 <= j < i && staticRoutes[j].handler(q).MethodNotMatched?
      {
        match staticRoutes[i].handler(q)
        case PathNotMatched => continue;
        case MethodNotMatched => methodNotFound := true;
        case RouteMatched =>
          assert (staticRoutes + routes)[i] == staticRoutes[i];
          return Matched(staticRoutes[i]);
      }
      for i := 0 to |routes|
        invariant forall j :: 0 <= j < i ==> !routes[j].handler(q).RouteMatched?
        invariant methodNotFound <==>
                    (exists j :: 0 <= j < |staticRoutes| && staticRoutes[j].handler(q).MethodNotMatched?) ||
                                      (exists j :: 0 <= j < i && routes[j].handler(q).MethodNotMatched?)
      {
        match routes[i].handler(q)
        case PathNotMatched => continue;
        case MethodNotMatched => methodNotFound := true;
        case RouteMatched =>
          assert (staticRoutes + routes)[|staticRoutes| + i] == routes[i];
          return Matched(routes[i]);
      }
      if methodNotFound {
        return MethodNotAllowed;
      } else {
        return NotFound;
      }
    }
  }

  /** A request has exactly one right answer. */
  lemma AnswerIsUnique<Q, A>(routes: seq<BaseRoute<Q, A>>, q: Q, a: Outcome<Q, A>, b: Outcome<Q, A>)
    requires Answers(routes, q, a) && Answers(routes, q, b)
    ensures a == b
  {
    MatchedIff(routes, q, a);
    MatchedIff(routes, q, b);
  }

  lemma MatchedIff<Q, A>(routes: seq<BaseRoute<Q, A>>, q: Q, o: Outcome<Q, A>)
    requires Answers(routes, q, o)
    ensures o.Matched? <==> exists r :: r in routes && r.handler(q).RouteMatched?
  {
    if o.Matched? { assert o.route in routes; }
  }

  lemma {:induction false} OfKindIs<Q, A>(routes: seq<BaseRoute<Q, A>>, isStatic: bool)
    ensures forall r :: r in OfKind(routes, isStatic) <==> r in routes && r.isStatic == isStatic
    decreases |routes|
  {
    if routes != [] {
      var n := |routes| - 1;
      assert routes == routes[..n] + [routes[n]];
      OfKindIs(routes[..n], isStatic);
    }
  }

  /** r is the first route of this kind, in registration order, that matches. */
  ghost predicate FirstOfKind<Q, A>(routes: seq<BaseRoute<Q, A>>, isStatic: bool, q: Q, r: BaseRoute<Q, A>) {
    exists i :: 0 <= i < |routes| && routes[i] == r && r.isStatic == isStatic && r.handler(q).RouteMatched? &&
                forall j :: 0 <= j < i && routes[j].isStatic == isStatic ==> !routes[j].handler(q).RouteMatched?
  }

  predicate NoneMatches<Q, A>(routes: seq<BaseRoute<Q, A>>, q: Q) {
    forall j :: 0 <= j < |routes| ==> !routes[j].handler(q).RouteMatched?
  }

  lemma FirstAppend<Q, A>(a: seq<BaseRoute<Q, A>>, b: seq<BaseRoute<Q, A>>, q: Q, r: BaseRoute<Q, A>)
    ensures First(a + b, q, r) <==> First(a, q, r) || (NoneMatches(a, q) && First(b, q, r))
  {
    var s := a + b;
    if i :| 0 <= i < |s| && s[i] == r && r.handler(q).RouteMatched? &&
            forall j :: 0 <= j < i ==> !s[j].handler(q).RouteMatched? {
      if i < |a| {
        assert forall j :: 0 <= j < i ==> a[j] == s[j];
      } else {
        assert b[i - |a|] == r;
        assert forall j :: 0 <= j < |a| ==> a[j] == s[j];
        assert forall j :: 0 <= j < i - |a| ==> b[j] == s[|a| + j];
      }
    }
    if i :| 0 <= i < |a| && a[i] == r && r.handler(q).RouteMatched? &&
            forall j :: 0 <= j < i ==> !a[j].handler(q).RouteMatched? {
      assert s[i] == r;
    }
    if NoneMatches(a, q) && First(b, q, r) {
      var i :| 0 <= i < |b| && b[i] == r && forall j :: 0 <= j < i ==> !b[j].handler(q).RouteMatched?;
      assert s[|a| + i] == r;
    }
  }

  lemma FirstOfKindSnoc<Q, A>(a: seq<BaseRoute<Q, A>>, x: BaseRoute<Q, A>, isStatic: bool, q: Q, r: BaseRoute<Q, A>)
    ensures FirstOfKind(a + [x], isStatic, q, r) <==>
              || FirstOfKind(a, isStatic, q, r)
              || (x == r && x.isStatic == isStatic && x.handler(q).RouteMatched? &&
                  forall y :: y in a && y.isStatic == isStatic ==> !y.handler(q).RouteMatched?)
  {
    var s := a + [x];
    if i :| 0 <= i < |s| && s[i] == r && r.isStatic == isStatic && r.handler(q).RouteMatched? &&
            forall j :: 0 <= j < i && s[j].isStatic == isStatic ==> !s[j].handler(q).RouteMatched? {
      assert forall j :: 0 <= j < |a| ==> a[j] == s[j];
    }
    if FirstOfKind(a, isStatic, q, r) {
      var i :| 0 <= i < |a| && a[i] == r &&
               forall j :: 0 <= j < i && a[j].isStatic == isStatic ==> !a[j].handler(q).RouteMatched?;
      assert s[i] == r;
    }
    assert s[|a|] == x;
  }

  /** Separating the routes by kind keeps their order. */
  lemma {:induction false} SplitIsStable<Q, A>(routes: seq<BaseRoute<Q, A>>, isStatic: bool, q: Q, r: BaseRoute<Q, A>)
    ensures First(OfKind(routes, isStatic), q, r) <==> FirstOfKind(routes, isStatic, q, r)
    decreases |routes|
  {
    hide First, FirstOfKind;
    if routes == [] {
      NoRoutes(isStatic, q, r);
    } else {
      var n := |routes| - 1;
      var a, x := routes[..n], routes[n];
      assert routes == a + [x];
      SplitIsStable(a, isStatic, q, r);
      FirstOfKindSnoc(a, x, isStatic, q, r);
      OfKindIs(a, isStatic);
      FirstAppend(OfKind(a, isStatic), if x.isStatic == isStatic then [x] else [], q, r);
      FirstOfOne(x, q, r);
      NoRoutes(isStatic, q, r);
    }
  }

  lemma NoRoutes<Q, A>(isStatic: bool, q: Q, r: BaseRoute<Q, A>)
    ensures !First([], q, r) && !FirstOfKind([], isStatic, q, r)
  {
  }

  lemma FirstOfOne<Q, A>(x: BaseRoute<Q, A>, q: Q, r: BaseRoute<Q, A>)
    ensures First([x], q, r) <==> x == r && x.handler(q).RouteMatched?
  {
    assert [x][0] == x;
  }

  /** The router's answer over the routes as registered: the first static match; failing that the first
      dynamic match; failing that 405 if any route knew the path, and 404 if none did. */
  lemma DispatchIs<Q, A>(all: seq<BaseRoute<Q, A>>, q: Q, o: Outcome<Q, A>)
    ensures Answers(OfKind(all, true) + OfKind(all, false), q, o) <==>
              match o
              case Matched(r) =>
                FirstOfKind(all, true, q, r) ||
                ((forall s :: s in all && s.isStatic ==> !s.handler(q).RouteMatched?) && FirstOfKind(all, false, q, r))
              case MethodNotAllowed =>
                && (forall r :: r in all ==> !r.handler(q).RouteMatched?)
                && exists r :: r in all && r.handler(q).MethodNotMatched?
              case NotFound => forall r :: r in all ==> r.handler(q).PathNotMatched?
  {
    var statics, dynamics := OfKind(all, true), OfKind(all, false);
    OfKindIs(all, true);
    OfKindIs(all, false);
    hide OfKind, FirstOfKind;
    assert forall r :: r in statics + dynamics <==> r in all;
    if o.Matched? {
      hide First;
      SplitIsStable(all, true, q, o.route);
      SplitIsStable(all, false, q, o.route);
      FirstAppend(statics, dynamics, q, o.route);
    }
  }
}
