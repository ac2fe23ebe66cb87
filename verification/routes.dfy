/** The route table and the `/`-segment matcher (`Routes`). The process-wide
    `$routeData` becomes an explicit `RouteTable` value. */
module Routes {
  import opened Wrappers
  import opened Text

  /** The record `add` stores. `controller` and `action` name the handler
      that is called on a match. */
  datatype Route = Route(path: string, verb: string, controller: string, action: string, hasVariables: bool)

  /** The registered routes, in registration order. */
  type RouteTable = seq<Route>

  /** `add(path, verb, [controller, action])`: appends one record and
      leaves the earlier ones untouched; no duplicate check is made. The
      record is flagged as having variables when the path contains a `{`
      somewhere and a `}` somewhere, in whatever order. */
  function Add(table: RouteTable, path: string, verb: string, controller: string, action: string): (r: RouteTable)
    ensures |r| == |table| + 1
    ensures r[..|table|] == table
    ensures r[|table|].path == path && r[|table|].verb == verb
    ensures r[|table|].controller == controller && r[|table|].action == action
    ensures r[|table|].hasVariables <==> (exists i, j :: 0 <= i < |path| && 0 <= j < |path| && path[i] == '{' && path[j] == '}')
  {
    table + [Route(path, verb, controller, action, '{' in path && '}' in path)]
  }

  /** The arguments of one `add` call. */
  datatype Declaration = Declaration(path: string, verb: string, controller: string, action: string)

  /** The table after `decls` have been added one by one to an empty table;
      `list` returns exactly this. */
  function Register(decls: seq<Declaration>): (table: RouteTable)
    ensures |table| == |decls|
    ensures forall i :: 0 <= i < |decls| ==>
      && table[i].path == decls[i].path
      && table[i].verb == decls[i].verb
      && table[i].controller == decls[i].controller
      && table[i].action == decls[i].action
      && (table[i].hasVariables <==> '{' in decls[i].path && '}' in decls[i].path)
  {
    if |decls| == 0 then []
    else
      var d := decls[|decls| - 1];
      Add(Register(decls[..|decls| - 1]), d.path, d.verb, d.controller, d.action)
  }

  /** Registering more routes never changes the records of earlier ones:
      `list` reflects registration order. */
  lemma {:induction false} RegisterKeepsEarlierRecords(decls: seq<Declaration>, more: seq<Declaration>)
    ensures Register(decls + more)[..|decls|] == Register(decls)
    decreases |more|
  {
    if |more| == 0 {
      assert decls + more == decls;
    } else {
      var all := decls + more;
      assert all[..|all| - 1] == decls + more[..|more| - 1];
      RegisterKeepsEarlierRecords(decls, more[..|more| - 1]);
    }
  }

  /** The variable-segment test of `match`, a regular expression anchored at
      both ends: a `{`, at least one character, and a `}` closing the segment. In PCRE's default mode `.` does not match a
      newline and `$` also matches just before a final newline, so a single
      trailing newline after the `}` is allowed and the inner text must be
      free of newlines. In particular `{}` is not a variable segment. */
  predicate IsVariableSegment(segment: string)
  {
    || (&& |segment| >= 3 && segment[0] == '{' && segment[|segment| - 1] == '}'
        && '\n' !in segment[1..|segment| - 1])
    || (&& |segment| >= 4 && segment[0] == '{' && segment[|segment| - 2] == '}'
        && segment[|segment| - 1] == '\n' && '\n' !in segment[1..|segment| - 2])
  }

  /** The number of variable segments among `parts`. */
  function VariableCount(parts: seq<string>): nat
  {
    if |parts| == 0 then 0
    else (if IsVariableSegment(parts[0]) then 1 else 0) + VariableCount(parts[1..])
  }

  /** The lockstep walk of `match` over route segments `rp` and URI segments
      `up`. It fails when the URI runs out of segments or a literal route
      segment differs from the URI segment at the same index; extra URI
      segments are ignored. On success it captures one URI segment per
      variable route segment, in left-to-right order, so the variable
      segment at index x yields the capture numbered by the count of
      variable segments before x. */
  function MatchSegments(rp: seq<string>, up: seq<string>): (r: Option<seq<string>>)
    ensures r.Some? <==>
      && |rp| <= |up|
      && forall x :: 0 <= x < |rp| && !IsVariableSegment(rp[x]) ==> rp[x] == up[x]
    ensures r.Some? ==> |r.value| == VariableCount(rp)
    ensures r.Some? ==> forall x :: 0 <= x < |rp| && IsVariableSegment(rp[x]) ==>
      VariableCount(rp[..x]) < |r.value| && r.value[VariableCount(rp[..x])] == up[x]
  {
    if |rp| == 0 then Some([])
    else if |up| == 0 then None
    else
      assert forall x :: 0 < x <= |rp| ==> rp[..x][0] == rp[0] && rp[..x][1..] == rp[1..][..x - 1];
      assert forall x :: 0 < x < |rp| ==> rp[1..][x - 1] == rp[x];
      assert forall x :: 0 < x < |up| ==> up[1..][x - 1] == up[x];
      var rest := MatchSegments(rp[1..], up[1..]);
      if IsVariableSegment(rp[0]) then
        if rest.None? then None else Some([up[0]] + rest.value)
      else if rp[0] != up[0] then None
      else rest
  }

  /** `match(route, uri)`: both strings are split on `/` and walked in
      lockstep. A URI with fewer segments than the route never matches. */
  function Match(route: string, uri: string): (r: Option<seq<string>>)
    ensures Count(uri, '/') < Count(route, '/') ==> r == None
    ensures r.Some? ==> |r.value| == VariableCount(Split(route, '/'))
  {
    MatchSegments(Split(route, '/'), Split(uri, '/'))
  }

  lemma {:induction false} MatchSegmentsIgnoresExtra(rp: seq<string>, up: seq<string>, more: seq<string>)
    requires |rp| <= |up|
    ensures MatchSegments(rp, up + more) == MatchSegments(rp, up)
    decreases |rp|
  {
    if |rp| > 0 {
      assert (up + more)[0] == up[0];
      assert (up + more)[1..] == up[1..] + more;
      MatchSegmentsIgnoresExtra(rp[1..], up[1..], more);
    }
  }

  /** Extra trailing URI segments are ignored: a URI that matches still
      matches, with the same captures, after `/` and more text are appended. */
  lemma MatchIgnoresExtraSegments(route: string, uri: string, extra: string)
    requires Match(route, uri).Some?
    ensures Match(route, uri + "/" + extra) == Match(route, uri)
  {
    assert uri + "/" + extra == uri + ['/'] + extra;
    SplitAroundSeparator(uri, extra, '/');
    MatchSegmentsIgnoresExtra(Split(route, '/'), Split(uri, '/'), Split(extra, '/'));
  }

  /** `{}` has nothing between its braces, so it is a literal segment: it
      matches only itself and captures nothing. */
  lemma EmptyBracesAreLiteral()
    ensures !IsVariableSegment("{}")
    ensures Match("/{}", "/{}") == Some([])
    ensures Match("/{}", "/x") == None
  {
    assert Split("}", '/') == ["}"];
    assert Split("{}", '/') == ["{}"];
    assert Split("/{}", '/') == ["", "{}"];
    assert Split("x", '/') == ["x"];
    assert Split("/x", '/') == ["", "x"];
  }

  lemma {:induction false} NoVariablesCountZero(parts: seq<string>)
    requires forall x :: 0 <= x < |parts| ==> !IsVariableSegment(parts[x])
    ensures VariableCount(parts) == 0
    decreases |parts|
  {
    if |parts| > 0 {
      assert forall x :: 0 < x < |parts| ==> parts[1..][x - 1] == parts[x];
      NoVariablesCountZero(parts[1..]);
    }
  }

  /** A route matches its own path, capturing each of its variable segments
      verbatim; a route without variable segments captures nothing. */
  lemma MatchSelf(route: string)
    ensures Match(route, route).Some?
    ensures (forall x :: 0 <= x < |Split(route, '/')| ==> !IsVariableSegment(Split(route, '/')[x])) ==>
      Match(route, route) == Some([])
  {
    var parts := Split(route, '/');
    if forall x :: 0 <= x < |parts| ==> !IsVariableSegment(parts[x]) {
      NoVariablesCountZero(parts);
    }
  }

  /** A path with a variable segment always gets the `hasVariables` flag, so
      the exact-comparison shortcut is never taken for it. (The converse
      fails: `/a}{` is flagged but has no variable segment.) */
  lemma VariableSegmentSetsFlag(path: string, x: nat)
    requires x < |Split(path, '/')| && IsVariableSegment(Split(path, '/')[x])
    ensures '{' in path && '}' in path
  {
    var parts := Split(path, '/');
    var seg := parts[x];
    var close := if seg[|seg| - 1] == '}' then |seg| - 1 else |seg| - 2;
    assert seg[0] == '{' && seg[close] == '}';
    assert Join(parts, '/') == path;
    PieceCharsInJoin(parts, '/', x, '{');
    PieceCharsInJoin(parts, '/', x, '}');
  }

  lemma UsersPatternSplit()
    ensures Split("/users/{id}", '/') == ["", "users", "{id}"]
  {
    assert "/users/{id}" == "" + ['/'] + ("users" + ['/'] + "{id}");
    SplitThreePieces("", "users", "{id}", '/');
  }

  lemma UsersUriSplit()
    ensures Split("/users/42", '/') == ["", "users", "42"]
  {
    assert "/users/42" == "" + ['/'] + ("users" + ['/'] + "42");
    SplitThreePieces("", "users", "42", '/');
  }

  /** The segment walk for `/users/{id}` against `/users/42` captures `42`. */
  lemma UsersSegmentsMatch()
    ensures MatchSegments(["", "users", "{id}"], ["", "users", "42"]) == Some(["42"])
  {
    assert IsVariableSegment("{id}");
    assert !IsVariableSegment("users") && !IsVariableSegment("");
    var rp: seq<string> := ["", "users", "{id}"];
    var up: seq<string> := ["", "users", "42"];
    assert VariableCount(["{id}"]) == 1 by { assert ["{id}"][1..] == []; }
    assert VariableCount(["users", "{id}"]) == 1 by { assert ["users", "{id}"][1..] == ["{id}"]; }
    assert VariableCount(rp) == 1 by { assert rp[1..] == ["users", "{id}"]; }
    assert VariableCount(["users"]) == 0 by { assert ["users"][1..] == []; }
    assert VariableCount(rp[..2]) == 0 by {
      assert rp[..2] == ["", "users"];
      assert rp[..2][1..] == ["users"];
    }
    var r := MatchSegments(rp, up);
    assert r.Some?;
    assert r.value[0] == "42";
    assert r.value == ["42"];
  }

  /** `/users/{id}` matches `/users/42`, capturing `42`. */
  lemma UsersMatch()
    ensures Match("/users/{id}", "/users/42") == Some(["42"])
  {
    UsersPatternSplit();
    UsersUriSplit();
    UsersSegmentsMatch();
  }
}
