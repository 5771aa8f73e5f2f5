/** A router over static and compiled routes, from the request to the arguments of the handler. */
module Serving {
  import opened Wrappers
  import opened Regex
  import opened RoutePatterns
  import opened RouteChunks
  import opened RouteLanguage
  import opened RouteArguments
  import opened RouteMatches
  import opened Routes
  import opened Routing

  datatype Request = Request(methodName: string, path: string)

  /** A route as it is registered: a fixed path, or a pattern with the engine that matches its regex. */
  datatype RouteDef =
    | StaticDef(fixed: string, methods: set<string>)
    | PatternDef(pattern: string, methods: set<string>, engine: string -> Option<Groups>)

  /** A pattern composes and compiles in place, and its engine finds a match of the whole path if there is one. */
  ghost predicate Valid(d: RouteDef) {
    d.PatternDef? ==>
      && Composes(Scan(d.pattern)) && Spliced(d.pattern) == Some(Compiled(Scan(d.pattern), 0))
      && (CompilePattern(d.pattern).Ok? ==>
            forall path :: EngineAnswers(CompilePattern(d.pattern).value.0, path, d.engine(path)))
  }

  function StaticHandler(fixed: string, methods: set<string>, q: Request): RouteMatchResult<seq<Arg>> {
    if q.path != fixed then PathNotMatched
    else if q.methodName !in methods then MethodNotMatched
    else RouteMatched([])
  }

  function Answer(d: RouteDef, q: Request): RouteMatchResult<seq<Arg>> {
    match d
    case StaticDef(fixed, methods) => StaticHandler(fixed, methods, q)
    case PatternDef(pattern, methods, engine) =>
      match CompilePattern(pattern)
      case Err(_) => PathNotMatched
      case Ok((regex, params)) =>
        var answer := engine(q.path);
        if answer.Some? && |answer.value| != |Names(regex)| then PathNotMatched
        else Handler(Route(methods, regex, params), q.methodName, answer)
  }

  function RouteFor(d: RouteDef): BaseRoute<Request, seq<Arg>> {
    BaseRoute(d.StaticDef?, q => Answer(d, q))
  }

  ghost predicate KnowsPath(d: RouteDef, path: string) {
    match d
    case StaticDef(fixed, _) => path == fixed
    case PatternDef(pattern, _, _) => CanRead(Scan(pattern), path)
  }

  ghost predicate Serves(d: RouteDef, q: Request) {
    KnowsPath(d, q.path) && q.methodName in d.methods
  }

  /** The handler of a static route takes no arguments; any other takes the pieces of the path. */
  ghost predicate CalledWithPieces(d: RouteDef, path: string, args: seq<Arg>) {
    match d
    case StaticDef(_, _) => args == []
    case PatternDef(pattern, _, _) =>
      Composes(Scan(pattern)) && (KeepsOwn(Scan(pattern)) ==> ArgsRead(Scan(pattern), path, args))
  }

  lemma AnswerIs(d: RouteDef, q: Request)
    requires Valid(d)
    ensures var m := RouteFor(d).handler(q);
      && (m.PathNotMatched? <==> !KnowsPath(d, q.path))
      && (m.RouteMatched? <==> Serves(d, q))
      && (m.RouteMatched? ==> CalledWithPieces(d, q.path, m.call))
  {
    hide Composes, Scan, Compiled, Spliced, CompilePattern, Matches, CanRead, ArgsRead, KeepsOwn, Names, EngineAnswers;
    if d.PatternDef? {
      RouteServesItsPattern(d.pattern, d.methods, q.path, q.methodName, d.engine(q.path));
    }
  }

  function RoutesFor(defs: seq<RouteDef>): (rs: seq<BaseRoute<Request, seq<Arg>>>)
    ensures |rs| == |defs| && forall i :: 0 <= i < |defs| ==> rs[i] == RouteFor(defs[i])
  {
    seq(|defs|, i requires 0 <= i < |defs| => RouteFor(defs[i]))
  }

  /** The definition that serves a request: the first static one that does, else the first pattern that does. */
  ghost predicate IsServedBy(defs: seq<RouteDef>, q: Request, i: nat) {
    && i < |defs| && Serves(defs[i], q)
    && (forall j :: 0 <= j < i && defs[j].StaticDef? == defs[i].StaticDef? ==> !Serves(defs[j], q))
    && (defs[i].PatternDef? ==> forall j :: 0 <= j < |defs| && defs[j].StaticDef? ==> !Serves(defs[j], q))
  }

  /** What the router makes of a request, in terms of what was registered. */
  ghost predicate ServedFrom(defs: seq<RouteDef>, q: Request, o: Outcome<Request, seq<Arg>>) {
    match o
    case Matched(r) =>
      exists i: nat :: IsServedBy(defs, q, i) && r == RouteFor(defs[i]) && r.handler(q).RouteMatched? &&
                       CalledWithPieces(defs[i], q.path, r.handler(q).call)
    case MethodNotAllowed =>
      (forall i :: 0 <= i < |defs| ==> !Serves(defs[i], q)) && exists i :: 0 <= i < |defs| && KnowsPath(defs[i], q.path)
    case NotFound => forall i :: 0 <= i < |defs| ==> !KnowsPath(defs[i], q.path)
  }

  lemma FirstServes(defs: seq<RouteDef>, isStatic: bool, q: Request, r: BaseRoute<Request, seq<Arg>>) returns (i: nat)
    requires (forall d :: d in defs ==> Valid(d)) && FirstOfKind(RoutesFor(defs), isStatic, q, r)
    ensures i < |defs| && r == RouteFor(defs[i]) && defs[i].StaticDef? == isStatic && Serves(defs[i], q)
    ensures forall j :: 0 <= j < i && defs[j].StaticDef? == isStatic ==> !Serves(defs[j], q)
    ensures r.handler(q).RouteMatched? && CalledWithPieces(defs[i], q.path, r.handler(q).call)
  {
    hide Valid, Serves, CalledWithPieces, Answer;
    var rs := RoutesFor(defs);
    i :| 0 <= i < |rs| && rs[i] == r && r.isStatic == isStatic && r.handler(q).RouteMatched? &&
         forall j :: 0 <= j < i && rs[j].isStatic == isStatic ==> !rs[j].handler(q).RouteMatched?;
    forall j | 0 <= j < |defs| ensures rs[j].handler(q).RouteMatched? <==> Serves(defs[j], q) {
      AnswerIs(defs[j], q);
    }
    AnswerIs(defs[i], q);
  }

  /** The first route whose pattern reads the path and whose methods allow the request, statics first, handles it with
      the pieces of the path; else 405 if some route knew the path; else 404. */
  lemma DispatchServes(defs: seq<RouteDef>, q: Request, o: Outcome<Request, seq<Arg>>)
    requires forall d :: d in defs ==> Valid(d)
    requires var rs := RoutesFor(defs); Answers(OfKind(rs, true) + OfKind(rs, false), q, o)
    ensures ServedFrom(defs, q, o)
  {
    hide Valid, Serves, CalledWithPieces, Answer, OfKind, FirstOfKind, Answers, KnowsPath;
    var rs := RoutesFor(defs);
    DispatchIs(rs, q, o);
    forall i | 0 <= i < |defs|
      ensures rs[i] in rs
      ensures rs[i].handler(q).RouteMatched? <==> Serves(defs[i], q)
      ensures rs[i].handler(q).PathNotMatched? <==> !KnowsPath(defs[i], q.path)
    {
      AnswerIs(defs[i], q);
    }
    if o.Matched? {
      var isStatic := FirstOfKind(rs, true, q, o.route);
      var i := FirstServes(defs, isStatic, q, o.route);
      assert IsServedBy(defs, q, i);
    }
  }

  method Dispatch(defs: seq<RouteDef>, q: Request) returns (o: Outcome<Request, seq<Arg>>)
    requires forall d :: d in defs ==> Valid(d)
    ensures ServedFrom(defs, q, o)
  {
    hide Valid, ServedFrom, Answers, OfKind;
    var router := new Router(RoutesFor(defs));
    o := router.GetHandler(q);
    DispatchServes(defs, q, o);
  }

  /** For every pattern that composes and compiles in place there is a definition with an engine that answers it. */
  lemma DefinitionExists(pattern: string, methods: set<string>) returns (d: RouteDef)
    requires Composes(Scan(pattern)) && Spliced(pattern) == Some(Compiled(Scan(pattern), 0))
    ensures d.PatternDef? && d.pattern == pattern && d.methods == methods && Valid(d)
  {
    hide Composes, Scan, Compiled, Spliced, CompilePattern, Matches;
    CompilationPreservesMeaning(pattern);
    var r := CompilePattern(pattern).value.0;
    ghost var engine: string -> Option<Groups> := path => AnyAnswer(r, path);
    d := PatternDef(pattern, methods, engine);
    forall path ensures EngineAnswers(r, path, d.engine(path)) {
      assert d.engine(path) == AnyAnswer(r, path);
    }
  }

  ghost function AnyAnswer(r: Regex, path: string): (answer: Option<Groups>)
    ensures EngineAnswers(r, path, answer)
  {
    if exists groups: Groups :: Matches(r, Fit(path, groups)) then
      var groups: Groups :| Matches(r, Fit(path, groups));
      Some(groups)
    else None
  }
}
