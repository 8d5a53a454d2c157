/** Handling a request: the filters in order, then the first matching route. */
module Dispatch {
  import opened Sequences
  import opened Wrappers
  import opened Regex
  import opened PathKeys
  import opened PathCompiler
  import opened PathScanner
  import opened RouteMeaning
  import opened RouteParams
  import opened RouteMask
  import opened Paths
  import opened Router

  /** The answers a request can get. */
  datatype Reply =
    | IllegalPath
    | ByFilter(filter: Filter, prefix: string)
    | UnknownMethod
    | ByRoute(callback: nat, params: Params)
    | Misconfigured
    | NotFound

  class Response {
    var sent: seq<Reply>

    constructor ()
      ensures sent == []
    {
      sent := [];
    }

    method Send(reply: Reply)
      modifies this
      ensures sent == old(sent) + [reply]
    {
      sent := sent + [reply];
    }
  }

  // ----- what decides the answer -----

  predicate LegalPath(resource: string) {
    "/" <= resource && !HasUpDir(resource)
  }

  /** The filter takes part in the request and finishes it.  `finishes` is what the filters
      themselves decide. */
  predicate Stops(mounted: Mounted, resource: string, finishes: (Filter, string, string) -> bool)
    requires "/" <= resource
  {
    mounted.1.pre && Prefixes(mounted.0, resource) && finishes(mounted.1, mounted.0, resource)
  }

  ghost predicate FirstStop(filters: seq<Mounted>, i: nat, resource: string, finishes: (Filter, string, string) -> bool)
    requires "/" <= resource
  {
    && i < |filters| && Stops(filters[i], resource, finishes)
    && forall k :: 0 <= k < i ==> !Stops(filters[k], resource, finishes)
  }

  /** What the regex engine reports for each route of a request: the groups of some match. */
  type Engine = Route -> Option<seq<string>>

  ghost predicate FirstFit(routes: seq<Route>, i: nat, engine: Engine) {
    && i < |routes| && engine(routes[i]).Some?
    && forall k :: 0 <= k < i ==> engine(routes[k]).None?
  }

  ghost predicate NoneFits(routes: seq<Route>, engine: Engine) {
    forall i :: 0 <= i < |routes| ==> engine(routes[i]).None?
  }

  /** The reply is the route's own: its callback gets the values for its own parameters, and no
      parameter of any other route. */
  ghost predicate AnsweredBy(route: Route, values: seq<string>, reply: Reply)
    requires |values| == |Parameters(Scan(route.mask))|
  {
    match route.callback
    case None => reply == Misconfigured
    case Some(callback) =>
      && reply.ByRoute? && reply.callback == callback
      && Binds(Parameters(Scan(route.mask)), values, |values|, reply.params)
  }

  /** The values the engine's groups give the parameters of the route. */
  function ValuesOf(route: Route, engine: Engine): (values: seq<string>)
    requires engine(route).Some?
    ensures |values| == |Parameters(Scan(route.mask))|
  {
    GroupTexts(engine(route).value, |Parameters(Scan(route.mask))|)
  }

  /** The earliest filter that stops the request has sent the reply. */
  ghost predicate AnsweredByFilter(filters: seq<Mounted>, resource: string,
                                   finishes: (Filter, string, string) -> bool, reply: Reply)
    requires "/" <= resource
  {
    exists i: nat :: FirstStop(filters, i, resource, finishes) && reply == ByFilter(filters[i].1, filters[i].0)
  }

  ghost predicate NoneStops(filters: seq<Mounted>, resource: string, finishes: (Filter, string, string) -> bool)
    requires "/" <= resource
  {
    forall i :: 0 <= i < |filters| ==> !Stops(filters[i], resource, finishes)
  }

  /** The earliest route that fits has answered. */
  ghost predicate AnsweredByRoute(routes: seq<Route>, engine: Engine, reply: Reply) {
    exists i: nat :: FirstFit(routes, i, engine) && AnsweredBy(routes[i], ValuesOf(routes[i], engine), reply)
  }

  /** The reply the router owes a request. */
  ghost predicate IsAnswer(router: Compiled, verb: Verb, resource: string,
                           finishes: (Filter, string, string) -> bool, engine: Engine, reply: Reply)
  {
    if !LegalPath(resource) then reply == IllegalPath
    else if !NoneStops(router.filters, resource, finishes) then
      AnsweredByFilter(router.filters, resource, finishes, reply)
    else if router.routes == map[] then reply == NotFound
    else if verb !in router.routes then reply == UnknownMethod
    else if !NoneFits(router.routes[verb], engine) then AnsweredByRoute(router.routes[verb], engine, reply)
    else reply == NotFound
  }

  // ----- which answer it is -----

  /** A filter that takes part in requests, covers the path and finishes the request. */
  predicate Finishes(m: Mounted, resource: string, finishes: (Filter, string, string) -> bool) {
    m.1.pre && Covers(m.0, resource) && finishes(m.1, m.0, resource)
  }

  ghost predicate AnyFinishes(filters: seq<Mounted>, resource: string, finishes: (Filter, string, string) -> bool) {
    exists i :: 0 <= i < |filters| && Finishes(filters[i], resource, finishes)
  }

  /** The filter at `i` is the first that finishes the request. */
  ghost predicate FirstFinishes(filters: seq<Mounted>, i: nat, resource: string,
                                finishes: (Filter, string, string) -> bool)
  {
    && i < |filters| && Finishes(filters[i], resource, finishes)
    && forall k :: 0 <= k < i ==> !Finishes(filters[k], resource, finishes)
  }

  /** The first fitting route of the verb has this callback. */
  ghost predicate FirstCalls(router: Compiled, verb: Verb, engine: Engine, callback: Callback) {
    && verb in router.routes
    && exists i: nat :: FirstFit(router.routes[verb], i, engine) && router.routes[verb][i].callback == callback
  }

  predicate Legal(resource: string) {
    resource != "" && resource[0] == '/' && ".." !in Segments(resource)
  }

  /** The answer is a refusal exactly if the path does not start with a slash or goes up; else the
      first filter's that finishes the request, if any does; else, if there are routes at all, a
      refusal of a verb without routes; else the first fitting route's, and "not found" exactly
      if none fits or there are no routes. */
  lemma AnswerKinds(router: Compiled, verb: Verb, resource: string,
                    finishes: (Filter, string, string) -> bool, engine: Engine, reply: Reply)
    requires IsAnswer(router, verb, resource, finishes, engine, reply)
    ensures reply == IllegalPath <==> !Legal(resource)
    ensures reply.ByFilter? <==> Legal(resource) && AnyFinishes(router.filters, resource, finishes)
    ensures reply.ByFilter? ==>
              exists i: nat :: FirstFinishes(router.filters, i, resource, finishes) &&
                               router.filters[i] == (reply.prefix, reply.filter)
    ensures Legal(resource) && !AnyFinishes(router.filters, resource, finishes) ==>
              && (reply == UnknownMethod <==> router.routes != map[] && verb !in router.routes)
              && (reply == NotFound <==>
                  router.routes == map[] || (verb in router.routes && NoneFits(router.routes[verb], engine)))
    ensures reply.ByRoute? ==> FirstCalls(router, verb, engine, Some(reply.callback))
    ensures reply == Misconfigured ==> FirstCalls(router, verb, engine, None)
  {
    hide HasUpDir, Prefixes, Finishes, Stops, Binds, Scan, ValuesOf;
    LegalIs(resource);
    if "/" <= resource {
      FinishesIsStops(router.filters, resource, finishes);
    }
  }

  lemma LegalIs(resource: string)
    ensures LegalPath(resource) <==> Legal(resource)
    ensures Legal(resource) ==> "/" <= resource
  {
    hide HasUpDir, Segments;
    if "/" <= resource {
      UpDirIsSegment(resource);
    }
    assert resource != "" && resource[0] == '/' <==> "/" <= resource;
  }

  lemma FinishesIsStops(filters: seq<Mounted>, resource: string, finishes: (Filter, string, string) -> bool)
    requires "/" <= resource
    ensures forall i :: 0 <= i < |filters| ==>
              (Stops(filters[i], resource, finishes) <==> Finishes(filters[i], resource, finishes))
  {
    hide Prefixes, Covers;
    forall i | 0 <= i < |filters|
      ensures Stops(filters[i], resource, finishes) <==> Finishes(filters[i], resource, finishes)
    {
      PrefixesCover(filters[i].0, resource);
      TestedPrefix(filters[i].0, resource);
    }
  }

  lemma TestedPrefix(prefix: string, resource: string)
    requires "/" <= resource
    ensures PrefixTest(prefix, resource) == Some(Prefixes(prefix, resource))
  {
    hide PrefixTest;
    PrefixTestIsDefined(prefix, resource);
  }

  // ----- what the answer means -----

  /** The route's mask means the path, for some values of its parameters. */
  ghost predicate Fits(route: Route, resource: string)
    requires AllWellFormed(Scan(route.mask))
  {
    exists values :: RouteMeans(Scan(route.mask), route.options, resource, values)
  }

  ghost predicate AllCompiled(routes: seq<Route>) {
    forall i :: 0 <= i < |routes| ==> AllWellFormed(Scan(routes[i].mask))
  }

  /** The engine reports some match of the compiled route, if there is one. */
  ghost predicate EngineIsSound(routes: seq<Route>, resource: string, engine: Engine)
    requires AllCompiled(routes)
  {
    forall i :: 0 <= i < |routes| ==>
      EngineAnswers(RouteRe(Scan(routes[i].mask), routes[i].options), resource, engine(routes[i]))
  }

  /** The route at `i` is the first whose mask means the path, and the reply is its own, with
      values that its mask gives the path. */
  ghost predicate MeantAnswer(routes: seq<Route>, i: nat, resource: string, reply: Reply)
    requires AllCompiled(routes)
  {
    && i < |routes| && Fits(routes[i], resource)
    && (forall k :: 0 <= k < i ==> !Fits(routes[k], resource))
    && exists values :: |values| == |Parameters(Scan(routes[i].mask))| && AnsweredBy(routes[i], values, reply) &&
                        RouteMeans(Scan(routes[i].mask), routes[i].options, resource, values)
  }

  /** A sound engine finds a match exactly for the routes whose masks mean the path, and the
      groups it reports are values of that meaning. */
  lemma SoundEngineFits(route: Route, resource: string, found: Option<seq<string>>)
    requires AllWellFormed(Scan(route.mask))
    requires EngineAnswers(RouteRe(Scan(route.mask), route.options), resource, found)
    ensures found.Some? <==> Fits(route, resource)
    ensures found.Some? ==>
              && |found.value| == |Parameters(Scan(route.mask))|
              && RouteMeans(Scan(route.mask), route.options, resource, found.value)
  {
    var tokens := Scan(route.mask);
    var re := RouteRe(tokens, route.options);
    RouteShape(tokens, route.options);
    hide RouteMeans, RouteRe, Scan, AllWellFormed, Parameters;
    forall c
      ensures Accepts(re, resource, c) <==> RouteMeans(tokens, route.options, resource, c)
    {
      CompilationPreservesMeaning(tokens, route.options, resource, c);
    }
  }

  /** Where a route answers, the first route whose mask means the path does, with the values of
      that meaning; and no route fits exactly when no mask means the path. */
  lemma AnswerHasMeaning(routes: seq<Route>, resource: string, engine: Engine, reply: Reply) returns (i: nat)
    requires AllCompiled(routes) && EngineIsSound(routes, resource, engine)
    ensures NoneFits(routes, engine) <==> forall k :: 0 <= k < |routes| ==> !Fits(routes[k], resource)
    ensures AnsweredByRoute(routes, engine, reply) ==> MeantAnswer(routes, i, resource, reply)
  {
    hide Fits, RouteMeans, Scan, AllWellFormed, AnsweredBy, RouteRe, EngineAnswers;
    forall k | 0 <= k < |routes|
      ensures engine(routes[k]).Some? <==> Fits(routes[k], resource)
    {
      SoundEngineFits(routes[k], resource, engine(routes[k]));
    }
    i := 0;
    if AnsweredByRoute(routes, engine, reply) {
      i :| FirstFit(routes, i, engine) && AnsweredBy(routes[i], ValuesOf(routes[i], engine), reply);
      SoundEngineFits(routes[i], resource, engine(routes[i]));
      assert ValuesOf(routes[i], engine) == engine(routes[i]).value;
    }
  }

  // ----- handling -----

  /** Sends exactly one reply, and it is the one the router owes. */
  method HandleRequest(router: Compiled, verb: Verb, resource: string, resp: Response,
                       finishes: (Filter, string, string) -> bool, engine: Engine)
    modifies resp
    ensures exists reply ::
              resp.sent == old(resp.sent) + [reply] && IsAnswer(router, verb, resource, finishes, engine, reply)
  {
    if resource == "" || resource[0] != '/' || HasUpDir(resource) {
      resp.Send(IllegalPath);
      assert IsAnswer(router, verb, resource, finishes, engine, IllegalPath);
      return;
    }
    hide HasUpDir, FirstFit, AnsweredBy, Stops;
    var finished := TryFilters(router.filters, resource, resp, finishes);
    if finished {
      return;
    }
    if router.routes != map[] {
      if verb !in router.routes {
        resp.Send(UnknownMethod);
        assert IsAnswer(router, verb, resource, finishes, engine, UnknownMethod);
        return;
      }
      var done := TryRoutes(router.routes[verb], resource, resp, engine);
      if done {
        return;
      }
    }
    resp.Send(NotFound);
    assert IsAnswer(router, verb, resource, finishes, engine, NotFound);
  }

  /** Runs the filters in order until one finishes the request. */
  method TryFilters(filters: seq<Mounted>, resource: string, resp: Response,
                    finishes: (Filter, string, string) -> bool) returns (finished: bool)
    requires "/" <= resource
    modifies resp
    ensures finished ==> !NoneStops(filters, resource, finishes) &&
                         exists reply :: resp.sent == old(resp.sent) + [reply] &&
                                         AnsweredByFilter(filters, resource, finishes, reply)
    ensures !finished ==> resp.sent == old(resp.sent) && NoneStops(filters, resource, finishes)
  {
    for i := 0 to |filters|
      invariant resp.sent == old(resp.sent)
      invariant forall k :: 0 <= k < i ==> !Stops(filters[k], resource, finishes)
    {
      var (prefix, filter) := filters[i];
      if filter.pre && Prefixes(prefix, resource) {
        finished := Preproc(filter, prefix, resource, resp, finishes);
        if finished {
          assert FirstStop(filters, i, resource, finishes);
          assert AnsweredByFilter(filters, resource, finishes, ByFilter(filter, prefix));
          return;
        }
      }
    }
    finished := false;
  }

  /** Runs a filter, which sends one reply exactly when it finishes the request. */
  method Preproc(filter: Filter, prefix: string, resource: string, resp: Response,
                 finishes: (Filter, string, string) -> bool) returns (finished: bool)
    modifies resp
    ensures finished == finishes(filter, prefix, resource)
    ensures resp.sent == old(resp.sent) + if finished then [ByFilter(filter, prefix)] else []
  {
    finished := finishes(filter, prefix, resource);
    if finished {
      resp.Send(ByFilter(filter, prefix));
    }
  }

  /** Calls the first route that matches, with one set of parameters for all attempts. */
  method TryRoutes(routes: seq<Route>, resource: string, resp: Response, engine: Engine) returns (done: bool)
    modifies resp
    ensures done ==> !NoneFits(routes, engine) &&
                     exists reply :: resp.sent == old(resp.sent) + [reply] && AnsweredByRoute(routes, engine, reply)
    ensures !done ==> resp.sent == old(resp.sent) && NoneFits(routes, engine)
  {
    hide RouteMeans, Scan, AllWellFormed, Binds, AnsweredBy, RouteRe, EngineAnswers, ValuesOf;
    var params: Params := map[];
    for i := 0 to |routes|
      invariant resp.sent == old(resp.sent)
      invariant forall k :: 0 <= k < i ==> engine(routes[k]).None?
    {
      var route := routes[i];
      var matched;
      matched, params := MatchRoute(route, resource, engine, params);
      if matched {
        var reply := Call(route, params);
        RouteAnswers(route, ValuesOf(route, engine), params, reply);
        assert FirstFit(routes, i, engine);
        assert AnsweredByRoute(routes, engine, reply);
        resp.Send(reply);
        return true;
      }
    }
    done := false;
  }

  /** What calling a route sends: its callback's reply, or an error if it has none. */
  function Call(route: Route, params: Params): Reply {
    match route.callback
    case None => Misconfigured
    case Some(callback) => ByRoute(callback, params)
  }

  lemma RouteAnswers(route: Route, values: seq<string>, params: Params, reply: Reply)
    requires |values| == |Parameters(Scan(route.mask))|
    requires Binds(Parameters(Scan(route.mask)), values, |values|, params) && reply == Call(route, params)
    ensures AnsweredBy(route, values, reply)
  {
    hide Scan, Binds;
  }

  /** Matches one route.  Whatever its mask, it matches when the engine says so, and binds the
      engine's groups; and with a sound engine it matches exactly if its mask means the path. */
  method MatchRoute(route: Route, resource: string, engine: Engine, params: Params)
    returns (matched: bool, bound: Params)
    ensures matched <==> engine(route).Some?
    ensures matched ==> Binds(Parameters(Scan(route.mask)), ValuesOf(route, engine), |ValuesOf(route, engine)|, bound)
    ensures !matched ==> bound == params
    ensures AllWellFormed(Scan(route.mask)) &&
            EngineAnswers(RouteRe(Scan(route.mask), route.options), resource, engine(route)) ==>
              && (matched <==> Fits(route, resource))
              && (matched ==> RouteMeans(Scan(route.mask), route.options, resource, ValuesOf(route, engine)))
  {
    hide RouteMeans, Scan, AllWellFormed, Binds, RouteRe, Parameters, Fits, EngineAnswers;
    var tokens := Scan(route.mask);
    ghost var re := if AllWellFormed(tokens) then RouteRe(tokens, route.options) else REST_RE;
    if AllWellFormed(tokens) && EngineAnswers(re, resource, engine(route)) {
      SoundEngineFits(route, resource, engine(route));
    }
    matched, bound := Matches(re, Parameters(tokens), resource, engine(route), params);
  }

  // ----- sending -----

  /** The filters that take part in sending a response, in order. */
  function Senders(filters: seq<Mounted>, resource: string): seq<Mounted> {
    if filters == [] then []
    else
      var (prefix, filter) := filters[0];
      (if filter.send && PrefixTest(prefix, resource) == Some(true) then [filters[0]] else []) +
      Senders(filters[1..], resource)
  }

  /** For a path with a leading slash these are the filters that take part in sending and cover it. */
  lemma SendersCover(m: Mounted, rest: seq<Mounted>, resource: string)
    requires "/" <= resource
    ensures Senders([], resource) == []
    ensures Senders([m] + rest, resource) ==
            (if m.1.send && Covers(m.0, resource) then [m] else []) + Senders(rest, resource)
  {
    hide PrefixTest, Covers;
    PrefixesCover(m.0, resource);
    assert ([m] + rest)[1..] == rest;
  }

  /** Some filter takes part in sending and is mounted at the empty prefix. */
  ghost predicate SendsAtRoot(filters: seq<Mounted>) {
    exists i :: 0 <= i < |filters| && filters[i].1.send && filters[i].0 == ""
  }

  /** Calls the filters before a response is sent.  Nothing is returned where the prefix test is
      undefined; that happens exactly for the answer to a path that does not start with a
      slash, if some filter is mounted at the empty prefix. */
  method BeforeSend(filters: seq<Mounted>, resource: string) returns (called: Option<seq<Mounted>>)
    ensures called.None? <==> resource != "" && resource[0] != '/' && SendsAtRoot(filters)
    ensures called.Some? ==> called.value == Senders(filters, resource)
  {
    var list := [];
    for i := 0 to |filters|
      invariant list + Senders(filters[i..], resource) == Senders(filters, resource)
      invariant forall k :: 0 <= k < i && filters[k].1.send ==> PrefixTest(filters[k].0, resource).Some?
    {
      var (prefix, filter) := filters[i];
      PrefixTestIsDefined(prefix, resource);
      SendersFrom(filters, i, resource);
      hide PrefixTest, Senders;
      if !filter.send {
        continue;
      }
      var covers := PrefixTest(prefix, resource);
      if covers.None? {
        return None;
      }
      if covers.value {
        Regroup(list, [filters[i]], Senders(filters[i + 1..], resource));
        list := list + [filters[i]];
      }
    }
    forall k | 0 <= k < |filters| && filters[k].1.send && filters[k].0 == ""
      ensures resource == "" || resource[0] == '/'
    {
      PrefixTestIsDefined(filters[k].0, resource);
    }
    called := Some(list);
  }

  lemma SendersFrom(filters: seq<Mounted>, i: nat, resource: string)
    requires i < |filters|
    ensures var (prefix, filter) := filters[i];
            var rest := Senders(filters[i + 1..], resource);
            Senders(filters[i..], resource) ==
            if filter.send && PrefixTest(prefix, resource) == Some(true) then [filters[i]] + rest else rest
  {
    hide PrefixTest;
    assert filters[i..][1..] == filters[i + 1..];
  }
}
