/** Request intake and dispatch (`Request`). The statics `$uri`, `$method`
    and `$query` become a `RequestContext` value; the route table and the
    fallback location are passed in; the effect of dispatch is an `Outcome`. */
module Request {
  import opened Wrappers
  import opened Text
  import Standard
  import opened Routes

  /** What `init` stores for one request. The query is a positional list:
      entry i holds the `=`-pieces of the i-th `&`-piece. */
  datatype RequestContext = RequestContext(uri: string, verb: string, query: Standard.Stream<nat, seq<string>>)

  /** How a request ends: the matched handler is called with the captured
      variables as positional arguments, or the client is redirected to the
      fallback location (which ends the request before any handler runs). */
  datatype Outcome =
    | Call(controller: string, action: string, args: seq<string>)
    | Redirect(location: string)

  /** The URI `init` stores: the raw URI cut just before its first `?`.
      The result is a prefix of the URI. When the first `?` is at a position
      p > 0 the result holds no `?`; without a `?` the URI is kept. A `?` at
      position 0 is found at offset 0, which the code's fallback to the full
      length treats like "not found", so the whole string is kept. */
  function TruncateUri(uri: string): (r: string)
    ensures r <= uri
    ensures '?' !in uri ==> r == uri
    ensures |uri| > 0 && uri[0] == '?' ==> r == uri
    ensures |uri| > 0 && uri[0] != '?' && '?' in uri ==> '?' !in r && |r| < |uri| && uri[|r|] == '?'
  {
    match Find(uri, '?')
    case Some(p) => if p > 0 then uri[..p] else uri
    case None => uri
  }

  /** The query decoding of `init`. An empty query string gives an empty
      list. Otherwise there is one entry per `&`-piece (one more than there
      are `&`), under the positional keys 0, 1, ..., and entry i holds the
      complete `=`-split of the i-th piece; repeated names are kept side by
      side, never merged. */
  function DecodeQuery(query: string): (r: Standard.Stream<nat, seq<string>>)
    ensures |query| == 0 ==> r == []
    ensures |query| > 0 ==> |r| == Count(query, '&') + 1
    ensures |query| > 0 ==> forall i :: 0 <= i < |r| ==>
      r[i].0 == i && r[i].1 == Split(Split(query, '&')[i], '=')
  {
    if |query| < 1 then []
    else Standard.Map(Standard.FromList(Split(query, '&')), (k: nat, piece: string) => Split(piece, '='))
  }

  /** Puts a decoded query back together: each entry's pieces joined with
      `=`, the entries joined with `&`. */
  function EncodeQuery(entries: Standard.Stream<nat, seq<string>>): string
  {
    Join(seq(|entries|, i requires 0 <= i < |entries| => Join(entries[i].1, '=')), '&')
  }

  /** Decoding loses nothing: every query string is recovered from its
      decoding. */
  lemma DecodeThenEncode(query: string)
    ensures EncodeQuery(DecodeQuery(query)) == query
  {
    if |query| == 0 {
      return;
    }
    var r := DecodeQuery(query);
    var pieces := Split(query, '&');
    var joined := seq(|r|, i requires 0 <= i < |r| => Join(r[i].1, '='));
    assert joined == pieces;
  }

  /** Decoding is also a left inverse: a positional list whose names and
      values contain neither `&` nor `=`, with at least one `=`-piece per
      entry, is what its encoding decodes to (when that encoding is not
      empty). */
  lemma EncodeThenDecode(entries: Standard.Stream<nat, seq<string>>)
    requires |entries| >= 1
    requires forall i :: 0 <= i < |entries| ==> entries[i].0 == i && |entries[i].1| >= 1
    requires forall i, j :: 0 <= i < |entries| && 0 <= j < |entries[i].1| ==>
      '&' !in entries[i].1[j] && '=' !in entries[i].1[j]
    requires |EncodeQuery(entries)| > 0
    ensures DecodeQuery(EncodeQuery(entries)) == entries
  {
    var pieces := seq(|entries|, i requires 0 <= i < |entries| => Join(entries[i].1, '='));
    forall i | 0 <= i < |entries|
      ensures '&' !in pieces[i] && Split(pieces[i], '=') == entries[i].1
    {
      JoinAvoids(entries[i].1, '=', '&');
      JoinThenSplit(entries[i].1, '=');
    }
    JoinThenSplit(pieces, '&');
    var r := DecodeQuery(EncodeQuery(entries));
    assert |r| == |entries|;
    assert forall i :: 0 <= i < |r| ==> r[i] == entries[i];
  }

  /** `init(uri, method, query)`: the method is stored as given, the URI is
      cut just before its first `?` (kept whole when there is none or it
      comes first), and the query is decoded into one positional entry per
      `&`-piece, each the full `=`-split of that piece; the decoded list is
      empty exactly when the query string is. */
  function Init(uri: string, verb: string, query: string): (ctx: RequestContext)
    ensures ctx.verb == verb
    ensures ctx.uri <= uri
    ensures '?' !in uri ==> ctx.uri == uri
    ensures |uri| > 0 && uri[0] == '?' ==> ctx.uri == uri
    ensures |uri| > 0 && uri[0] != '?' && '?' in uri ==>
      '?' !in ctx.uri && |ctx.uri| < |uri| && uri[|ctx.uri|] == '?'
    ensures ctx.query == [] <==> |query| == 0
    ensures |query| > 0 ==> |ctx.query| == Count(query, '&') + 1
    ensures |query| > 0 ==> forall i :: 0 <= i < |ctx.query| ==>
      ctx.query[i] == (i, Split(Split(query, '&')[i], '='))
  {
    RequestContext(TruncateUri(uri), verb, DecodeQuery(query))
  }

  /** The per-candidate trailing-slash rule: exactly one trailing `/` is
      removed from the URI, and only when the candidate's path is longer
      than one character. */
  function NormaliseUri(routePath: string, uri: string): (u: string)
    ensures u == uri || uri == u + "/"
    ensures u != uri <==> |routePath| > 1 && |uri| > 0 && uri[|uri| - 1] == '/'
  {
    if |routePath| > 1 && |uri| > 0 && uri[|uri| - 1] == '/' then uri[..|uri| - 1]
    else uri
  }

  /** The candidate test handed to `first`: the method must be equal; a
      route without variables needs its path to equal the normalised URI;
      a route with variables needs `match` to succeed on it. */
  predicate Accepts(route: Route, uri: string, verb: string)
  {
    && route.verb == verb
    && var u := NormaliseUri(route.path, uri);
       if !route.hasVariables then route.path == u else Match(route.path, u).Some?
  }

  /** The candidate test as a Stream predicate over the route list. */
  function CandidateTest(uri: string, verb: string): (nat, Route) -> Standard.PVal
  {
    (k: nat, route: Route) => Standard.B(Accepts(route, uri, verb))
  }

  /** Route i is the one selected: it passes the candidate test and no
      earlier route does. */
  ghost predicate IsWinner(routes: RouteTable, uri: string, verb: string, i: int)
  {
    && 0 <= i < |routes|
    && Accepts(routes[i], uri, verb)
    && forall j :: 0 <= j < i ==> !Accepts(routes[j], uri, verb)
  }

  /** The arguments a selected route is called with: its captures when it
      has variables, none otherwise. */
  function Arguments(route: Route, uri: string): seq<string>
  {
    if route.hasVariables then
      match Match(route.path, NormaliseUri(route.path, uri))
      case Some(captures) => captures
      case None => []
    else []
  }

  /** `first` over the route list with the candidate closure, together with
      the closure's by-reference `$variableMatch`: a candidate with
      variables overwrites it with its `match` result, whether that result
      is a capture list or null; other candidates leave it alone. Returns
      the selected route, if any, and the final `$variableMatch`. */
  function Scan(routes: RouteTable, uri: string, verb: string, captured: Option<seq<string>>): (r: (Option<Route>, Option<seq<string>>))
    ensures r.0.None? <==> forall i :: 0 <= i < |routes| ==> !Accepts(routes[i], uri, verb)
    ensures forall i :: IsWinner(routes, uri, verb, i) ==> r.0 == Some(routes[i])
    ensures captured.None? && r.0.Some? && r.0.value.hasVariables ==>
      r.1 == Match(r.0.value.path, NormaliseUri(r.0.value.path, uri))
    ensures captured.None? && r.0.Some? && !r.0.value.hasVariables ==> r.1 == None
  {
    if |routes| == 0 then (None, captured)
    else
      assert forall j :: 0 < j < |routes| ==> routes[1..][j - 1] == routes[j];
      var route := routes[0];
      if route.verb != verb then Scan(routes[1..], uri, verb, captured)
      else
        var u := NormaliseUri(route.path, uri);
        if !route.hasVariables then
          if route.path == u then (Some(route), captured)
          else Scan(routes[1..], uri, verb, captured)
        else
          var m := Match(route.path, u);
          if m.Some? then (Some(route), m)
          else Scan(routes[1..], uri, verb, m)
  }

  /** `invoke()`: redirect to the fallback when no route passes the
      candidate test; otherwise call the handler of the first passing route,
      in registration order, with its captured variables, or with an empty argument list when
      nothing was captured, so a route without variables is called with no
      arguments. */
  function Invoke(routes: RouteTable, ctx: RequestContext, fallback: string): (o: Outcome)
    ensures o == Redirect(fallback) <==> forall i :: 0 <= i < |routes| ==> !Accepts(routes[i], ctx.uri, ctx.verb)
    ensures forall i :: IsWinner(routes, ctx.uri, ctx.verb, i) ==>
      o == Call(routes[i].controller, routes[i].action, Arguments(routes[i], ctx.uri))
    ensures forall i :: IsWinner(routes, ctx.uri, ctx.verb, i) && !routes[i].hasVariables ==>
      o == Call(routes[i].controller, routes[i].action, [])
  {
    match Scan(routes, ctx.uri, ctx.verb, None)
    case (None, _) => Redirect(fallback)
    case (Some(route), captured) =>
      Call(route.controller, route.action, if captured.Some? then captured.value else [])
  }

  /** The index `first` stops at: the first route passing the candidate
      test, or the table size when none does. */
  lemma FirstPassingRoute(routes: RouteTable, uri: string, verb: string) returns (w: nat)
    ensures w <= |routes|
    ensures w < |routes| ==> IsWinner(routes, uri, verb, w)
    ensures w == |routes| ==> forall i :: 0 <= i < |routes| ==> !Accepts(routes[i], uri, verb)
  {
    var entries := Standard.FromList(routes);
    var test := CandidateTest(uri, verb);
    w := Standard.Decisive(entries, test, false);
    assert forall j :: 0 <= j < |routes| ==> entries[j] == (j, routes[j]);
    assert forall j :: 0 <= j < |routes| ==> test(j, routes[j]) == Standard.B(Accepts(routes[j], uri, verb));
  }

  /** The selection is `Stream::first` over the route list with the
      candidate closure: that call never throws, and it yields the route
      the scan selects. */
  lemma ScanIsStreamFirst(routes: RouteTable, uri: string, verb: string, captured: Option<seq<string>>)
    ensures Standard.First(Standard.FromList(routes), CandidateTest(uri, verb)) == Success(Scan(routes, uri, verb, captured).0)
  {
    var entries := Standard.FromList(routes);
    var test := CandidateTest(uri, verb);
    assert forall j :: 0 <= j < |routes| ==> entries[j] == (j, routes[j]);
    assert forall j :: 0 <= j < |routes| ==> test(j, routes[j]) == Standard.B(Accepts(routes[j], uri, verb));
    var w := Standard.Decisive(entries, test, false);
    if w < |routes| {
      assert IsWinner(routes, uri, verb, w);
    }
  }

  /** Once a route in the table passes the candidate test, routes registered
      after the table are never consulted. */
  lemma LaterRoutesNeverConsulted(routes: RouteTable, more: RouteTable, ctx: RequestContext, fallback: string)
    requires exists i :: 0 <= i < |routes| && Accepts(routes[i], ctx.uri, ctx.verb)
    ensures Invoke(routes + more, ctx, fallback) == Invoke(routes, ctx, fallback)
  {
    var w := FirstPassingRoute(routes, ctx.uri, ctx.verb);
    var all := routes + more;
    assert forall j :: 0 <= j <= w ==> all[j] == routes[j];
    assert IsWinner(all, ctx.uri, ctx.verb, w);
  }

  /** A request whose method no route is registered for is redirected to
      the fallback, whatever its path. */
  lemma UnknownMethodRedirects(routes: RouteTable, ctx: RequestContext, fallback: string)
    requires forall i :: 0 <= i < |routes| ==> routes[i].verb != ctx.verb
    ensures Invoke(routes, ctx, fallback) == Redirect(fallback)
  {
  }

  /** The handler called always belongs to a route registered for the
      request's method. */
  lemma CalledRouteHasRequestMethod(routes: RouteTable, ctx: RequestContext, fallback: string)
    requires Invoke(routes, ctx, fallback).Call?
    ensures exists i :: (
      && 0 <= i < |routes|
      && routes[i].verb == ctx.verb
      && routes[i].controller == Invoke(routes, ctx, fallback).controller
      && routes[i].action == Invoke(routes, ctx, fallback).action)
  {
    var w := FirstPassingRoute(routes, ctx.uri, ctx.verb);
    assert w < |routes|;
  }

  /** Of two registrations with the same method, path and flag, the later
      one can never be selected: registration order breaks the tie. */
  lemma EarlierDuplicateShadowsLater(routes: RouteTable, uri: string, verb: string, i: nat, j: nat)
    requires i < j < |routes|
    requires routes[i].verb == routes[j].verb && routes[i].path == routes[j].path
    requires routes[i].hasVariables == routes[j].hasVariables
    ensures !IsWinner(routes, uri, verb, j)
  {
    if Accepts(routes[j], uri, verb) {
      assert Accepts(routes[i], uri, verb);
    }
  }

  /** A route without variables passes for its method exactly when the raw
      URI is its path, or (for a path longer than one character) its path
      followed by one `/` -- but not when the path itself ends in `/` and
      the URI equals it: the URI's trailing `/` is stripped first. */
  lemma VariableFreeRouteAcceptance(route: Route, uri: string, verb: string)
    requires !route.hasVariables && route.verb == verb
    ensures Accepts(route, uri, verb) <==>
      if |route.path| > 1 && |uri| > 0 && uri[|uri| - 1] == '/' then uri == route.path + "/"
      else uri == route.path
  {
    if |route.path| > 1 && |uri| > 0 && uri[|uri| - 1] == '/' {
      if uri == route.path + "/" {
        assert uri[..|uri| - 1] == route.path;
      }
    }
  }

  /** `a=1&a=2` splits into two `&`-pieces of two `=`-pieces each. */
  lemma RepeatedNameSplits()
    ensures Split("a=1&a=2", '&') == ["a=1", "a=2"]
    ensures Split("a=1", '=') == ["a", "1"]
    ensures Split("a=2", '=') == ["a", "2"]
  {
    assert "a=1&a=2" == "a=1" + ['&'] + "a=2";
    SplitTwoPieces("a=1", "a=2", '&');
    assert "a=1" == "a" + ['='] + "1";
    SplitTwoPieces("a", "1", '=');
    assert "a=2" == "a" + ['='] + "2";
    SplitTwoPieces("a", "2", '=');
  }

  /** `x=1=2` is one `&`-piece of three `=`-pieces. */
  lemma MultipleEqualsSplits()
    ensures Split("x=1=2", '&') == ["x=1=2"]
    ensures Split("x=1=2", '=') == ["x", "1", "2"]
  {
    SplitWithoutSeparator("x=1=2", '&');
    assert "x=1=2" == "x" + ['='] + ("1" + ['='] + "2");
    SplitThreePieces("x", "1", "2", '=');
  }

  /** A table of one route that passes the candidate test calls that
      route's handler. */
  lemma SoleRouteCalled(route: Route, ctx: RequestContext, fallback: string)
    requires Accepts(route, ctx.uri, ctx.verb)
    ensures Invoke([route], ctx, fallback) == Call(route.controller, route.action, Arguments(route, ctx.uri))
  {
    assert IsWinner([route], ctx.uri, ctx.verb, 0);
  }

  /** The route `/users/{id}` for GET passes the candidate test for a
      URI that normalises to `/users/42`, and captures `["42"]` from it. */
  lemma UsersRouteAccepts(uri: string)
    requires NormaliseUri("/users/{id}", uri) == "/users/42"
    ensures Accepts(Route("/users/{id}", "GET", "Users", "show", true), uri, "GET")
    ensures Arguments(Route("/users/{id}", "GET", "Users", "show", true), uri) == ["42"]
  {
    UsersMatch();
  }

  /** Hence dispatching such a request to that route calls its handler with
      `["42"]`. */
  lemma UsersRouteCalls(uri: string, route: Route)
    requires route == Route("/users/{id}", "GET", "Users", "show", true)
    requires NormaliseUri(route.path, uri) == "/users/42"
    ensures Invoke([route], RequestContext(uri, "GET", []), "/404") == Call("Users", "show", ["42"])
  {
    UsersRouteAccepts(uri);
    SoleRouteCalled(route, RequestContext(uri, "GET", []), "/404");
  }

  /** `/users/{id}` for GET called as `/users/42` runs the handler with `["42"]`. */
  lemma VariableRouteExample()
    ensures Invoke([Route("/users/{id}", "GET", "Users", "show", true)], Init("/users/42", "GET", ""), "/404")
      == Call("Users", "show", ["42"])
  {
    assert '?' !in "/users/42";
    assert Init("/users/42", "GET", "") == RequestContext("/users/42", "GET", []);
    UsersRouteCalls("/users/42", Route("/users/{id}", "GET", "Users", "show", true));
  }

  /** The same route called as `/users/42/` loses the trailing `/` and runs
      the handler with `["42"]` as well. */
  lemma TrailingSlashExample()
    ensures Invoke([Route("/users/{id}", "GET", "Users", "show", true)], Init("/users/42/", "GET", ""), "/404")
      == Call("Users", "show", ["42"])
  {
    assert '?' !in "/users/42/";
    assert Init("/users/42/", "GET", "") == RequestContext("/users/42/", "GET", []);
    assert "/users/42/"[..9] == "/users/42";
    UsersRouteCalls("/users/42/", Route("/users/{id}", "GET", "Users", "show", true));
  }

  /** `/` for GET takes `/` with no arguments: no trailing-slash stripping
      applies to a one-character path. */
  lemma RootRouteExample()
    ensures Invoke([Route("/", "GET", "Home", "index", false)], Init("/", "GET", ""), "/404") == Call("Home", "index", [])
  {
    assert '?' !in "/";
    assert Init("/", "GET", "") == RequestContext("/", "GET", []);
    SoleRouteCalled(Route("/", "GET", "Home", "index", false), RequestContext("/", "GET", []), "/404");
  }

  /** A repeated query name gives two separate positional entries. */
  lemma RepeatedNameExample()
    ensures DecodeQuery("a=1&a=2") == [(0, ["a", "1"]), (1, ["a", "2"])]
  {
    RepeatedNameSplits();
  }

  /** A query value containing `=` keeps all of its `=`-pieces. */
  lemma MultipleEqualsExample()
    ensures DecodeQuery("x=1=2") == [(0, ["x", "1", "2"])]
  {
    MultipleEqualsSplits();
  }

  /** A URI is cut at its first `?`. */
  lemma TruncateUriExample()
    ensures TruncateUri("/index?name=Jamie") == "/index"
  {
    FindAfterPrefix("/index", '?', "name=Jamie");
    assert "/index" + ['?'] + "name=Jamie" == "/index?name=Jamie";
  }

  /** A URI whose first character is `?` is kept whole. */
  lemma LeadingQueryUriKept()
    ensures TruncateUri("?name=Jamie") == "?name=Jamie"
  {
  }
}
