/** What a scan of the routes does: which handlers decide, and what the response says about the methods allowed. */
module RouterProofs {
  import opened HttpHeaders
  import opened Results
  import opened Router
  import opened Sequences

  // ---------- Routes in sequence ----------

  /** Routes added later are tried on the response the earlier ones leave, and only if those all let the
      matching continue. */
  lemma {:induction false} ScanAppend(c: Context, first: seq<Route>, second: seq<Route>, response: Response)
    ensures var (outcome, left) := Scan(c, first, response);
            Scan(c, first + second, response) ==
            if outcome == Returned(true) then Scan(c, second, left) else (outcome, left)
  {
    if first == [] {
      assert first + second == second;
    } else {
      assert (first + second)[0] == first[0] && (first + second)[1..] == first[1..] + second;
      if Serves(c, first[0]) {
        ScanAppend(c, first[1..], second, Call(c, first[0], response).1);
      } else if Misses(c, first[0]) {
        ScanAppend(c, first[1..], second, NotAllowed(response, first[0].httpMethod));
      } else {
        ScanAppend(c, first[1..], second, response);
      }
    }
  }

  /** How many routes the scan passes or ends at. */
  ghost function Tried(c: Context, routes: seq<Route>, response: Response): (n: nat)
    ensures n <= |routes|
  {
    if routes == [] then 0
    else if Serves(c, routes[0]) then
      var (outcome, changed) := Call(c, routes[0], response);
      if outcome == Returned(true) then 1 + Tried(c, routes[1..], changed) else 1
    else if Misses(c, routes[0]) then 1 + Tried(c, routes[1..], NotAllowed(response, routes[0].httpMethod))
    else 1 + Tried(c, routes[1..], response)
  }

  /** The scan ends early exactly when a serving route's handler decides it, which is then the last one tried. */
  lemma {:induction false} LastTriedDecides(c: Context, routes: seq<Route>, response: Response)
    ensures var n := Tried(c, routes, response);
            var (outcome, left) := Scan(c, routes, response);
            || (outcome == Returned(true) && n == |routes|)
            || (outcome != Returned(true) && n > 0
                && Serves(c, routes[n - 1]) && Scan(c, routes[..n - 1], response).0 == Returned(true)
                && Call(c, routes[n - 1], Scan(c, routes[..n - 1], response).1) == (outcome, left))
  {
    if routes != [] {
      var rest := routes[1..];
      var next := if Serves(c, routes[0]) then Call(c, routes[0], response).1
                  else if Misses(c, routes[0]) then NotAllowed(response, routes[0].httpMethod)
                  else response;
      LastTriedDecides(c, rest, next);
      if Serves(c, routes[0]) && Call(c, routes[0], response).0 != Returned(true) {
        assert routes[..0] == [];
      } else {
        var m := Tried(c, rest, next);
        assert Tried(c, routes, response) == m + 1 && Scan(c, routes, response) == Scan(c, rest, next);
        if m > 0 {
          assert routes[..m][0] == routes[0] && routes[..m][1..] == rest[..m - 1];
        }
      }
    }
  }

  // ---------- The Allow header ----------

  /** The methods of the routes whose expressions match, but not for the requested method. */
  ghost function MissedMethods(c: Context, routes: seq<Route>): seq<string> {
    if routes == [] then []
    else (if Misses(c, routes[0]) then [routes[0].httpMethod] else []) + MissedMethods(c, routes[1..])
  }

  ghost function AddAllDistinct(listed: seq<string>, more: seq<string>): seq<string>
    decreases |more|
  {
    if more == [] then listed else AddAllDistinct(AddDistinct(listed, more[0]), more[1..])
  }

  lemma AddAllFirst(listed: seq<string>, first: string, more: seq<string>)
    ensures AddAllDistinct(listed, [first] + more) == AddAllDistinct(AddDistinct(listed, first), more)
  {
    assert ([first] + more)[1..] == more;
  }

  ghost predicate KeepsAllow(handler: Handler) {
    forall request, response, path, parameters ::
      Listed(handler(request, response, path, parameters).1.headers, ALLOW) == Listed(response.headers, ALLOW)
  }

  ghost predicate CallsKeepAllow(c: Context, route: Route) {
    KeepsAllow(route.handler) && (c.exceptionHandler.Some? ==> KeepsAllow(c.exceptionHandler.value))
  }

  /** What may be run for the request leaves the header alone; methods hold no separator. */
  ghost predicate AllowIsTheRouters(c: Context, routes: seq<Route>) {
    forall route <- routes :: HasNoComma(route.httpMethod) && (Serves(c, route) ==> CallsKeepAllow(c, route))
  }

  lemma MissedOfFirst(c: Context, routes: seq<Route>, n: nat)
    requires 0 < n <= |routes|
    ensures MissedMethods(c, routes[..n]) ==
            (if Misses(c, routes[0]) then [routes[0].httpMethod] else []) + MissedMethods(c, routes[1..][..n - 1])
  {
    assert routes[..n][0] == routes[0] && routes[..n][1..] == routes[1..][..n - 1];
  }

  lemma CallKeepsAllow(c: Context, route: Route, response: Response)
    requires route.pattern(c.path).Some? && CallsKeepAllow(c, route)
    ensures Listed(Call(c, route, response).1.headers, ALLOW) == Listed(response.headers, ALLOW)
  {
  }

  /** The header lists what it did before, and then the missed methods of the routes tried. */
  lemma {:induction false} AllowListsMissedMethods(c: Context, routes: seq<Route>, response: Response)
    requires AllowIsTheRouters(c, routes)
    ensures Listed(Scan(c, routes, response).1.headers, ALLOW) ==
            AddAllDistinct(Listed(response.headers, ALLOW), MissedMethods(c, routes[..Tried(c, routes, response)]))
  {
    if routes != [] {
      var route, rest := routes[0], routes[1..];
      var n := Tried(c, routes, response);
      MissedOfFirst(c, routes, n);
      if Serves(c, route) {
        CallKeepsAllow(c, route, response);
        AllowListsMissedMethods(c, rest, Call(c, route, response).1);
        EmptyPrefix(MissedMethods(c, rest[..n - 1]));
      } else if Misses(c, route) {
        AddValueLists(response.headers, ALLOW, route.httpMethod);
        AllowListsMissedMethods(c, rest, NotAllowed(response, route.httpMethod));
        AddAllFirst(Listed(response.headers, ALLOW), route.httpMethod, MissedMethods(c, rest[..n - 1]));
      } else {
        AllowListsMissedMethods(c, rest, response);
        EmptyPrefix(MissedMethods(c, rest[..n - 1]));
      }
    }
  }

  ghost predicate NoRepeats(s: seq<string>) {
    forall i, j | 0 <= i < j < |s| :: s[i] != s[j]
  }

  lemma {:induction false} AddAllDistinctMembers(listed: seq<string>, more: seq<string>)
    ensures forall v :: v in AddAllDistinct(listed, more) <==> v in listed || v in more
    ensures NoRepeats(listed) ==> NoRepeats(AddAllDistinct(listed, more))
    decreases |more|
  {
    if more != [] {
      AddAllDistinctMembers(AddDistinct(listed, more[0]), more[1..]);
      assert more == [more[0]] + more[1..];
    }
  }

  lemma {:induction false} MissedMethodsMembers(c: Context, routes: seq<Route>)
    ensures forall v :: v in MissedMethods(c, routes) <==> exists route <- routes :: Misses(c, route) && route.httpMethod == v
  {
    if routes != [] {
      MissedMethodsMembers(c, routes[1..]);
      assert forall route :: route in routes <==> route == routes[0] || route in routes[1..];
    }
  }

  /** The membership reading: from a response that allows nothing yet, each method of a matching route passed for
      its method is listed once, and nothing else is. */
  lemma AllowIsExactlyMissedMethods(c: Context, routes: seq<Route>, response: Response)
    requires AllowIsTheRouters(c, routes) && Listed(response.headers, ALLOW) == []
    ensures var allowed := Listed(Scan(c, routes, response).1.headers, ALLOW);
            var tried := routes[..Tried(c, routes, response)];
            && NoRepeats(allowed)
            && forall v :: v in allowed <==> exists route <- tried :: Misses(c, route) && route.httpMethod == v
  {
    var tried := routes[..Tried(c, routes, response)];
    AllowListsMissedMethods(c, routes, response);
    AddAllDistinctMembers([], MissedMethods(c, tried));
    MissedMethodsMembers(c, tried);
  }

  // ---------- The status code ----------

  /** Missed routes set a status code only if there is none, so one that a handler has set is kept. */
  lemma {:induction false} MissesKeepStatus(c: Context, routes: seq<Route>, response: Response)
    requires forall route <- routes :: !Serves(c, route)
    ensures var (outcome, left) := Scan(c, routes, response);
            outcome == Returned(true) &&
            left.status == if response.status == EMPTY_STATUS_CODE && MissedMethods(c, routes) != []
                           then METHOD_NOT_ALLOWED else response.status
  {
    if routes != [] {
      if Misses(c, routes[0]) {
        MissesKeepStatus(c, routes[1..], NotAllowed(response, routes[0].httpMethod));
      } else {
        MissesKeepStatus(c, routes[1..], response);
      }
    }
  }

  /** A request that no route serves is answered 405, with the methods of the matching routes, or 404 if no
      expression matches. */
  lemma UnservedRequest(c: Context, routes: seq<Route>)
    requires forall route <- routes :: !Serves(c, route) && HasNoComma(route.httpMethod)
    ensures var (outcome, left) := Reply(Scan(c, routes, Response(EMPTY_STATUS_CODE, map[])));
            && outcome == Returned(true)
            && Listed(left.headers, ALLOW) == AddAllDistinct([], MissedMethods(c, routes))
            && left.status == if exists route <- routes :: route.pattern(c.path).Some? then METHOD_NOT_ALLOWED else NOT_FOUND
  {
    var response := Response(EMPTY_STATUS_CODE, map[]);
    MissesKeepStatus(c, routes, response);
    MissedMethodsMembers(c, routes);
    LastTriedDecides(c, routes, response);
    AllowListsMissedMethods(c, routes, response);
    assert routes[..|routes|] == routes;
    if MissedMethods(c, routes) != [] {
      assert MissedMethods(c, routes)[0] in MissedMethods(c, routes);
    } else if route :| route in routes && route.pattern(c.path).Some? {
      assert Misses(c, route);
    }
  }

  // ---------- The answers, in their own terms ----------

  /** A listener's request for a method that no matching route is for is answered 405 with the methods of the matching
      routes in the Allow header, each once and with a comma and a space between them, and 404 if no route matches. */
  lemma AnswersUnserved(c: Context, routes: seq<Route>)
    requires forall route <- routes ::
               && HasNoComma(route.httpMethod)
               && (route.pattern(c.path).Some? ==> route.httpMethod != "" && route.httpMethod != c.request.httpMethod)
    ensures var (outcome, left) := Reply(Scan(c, routes, Response(65535, map[])));
            var matching := exists route <- routes :: route.pattern(c.path).Some?;
            && outcome == Returned(true) && left.status == (if matching then 405 else 404)
            && (matching ==> "Allow" in left.headers && left.headers["Allow"] == Joined(AddAllDistinct([], MissedMethods(c, routes))))
  {
    UnservedRequest(c, routes);
    var left := Reply(Scan(c, routes, Response(65535, map[]))).1;
    if route :| route in routes && route.pattern(c.path).Some? {
      assert Misses(c, route);
      MissedMethodsMembers(c, routes);
      AddAllDistinctMembers([], MissedMethods(c, routes));
      assert route.httpMethod in Listed(left.headers, "Allow");
      HeaderIsJoined(left.headers["Allow"]);
    }
  }

  /** The first route that matches, if it is for the request's method or for all methods, decides alone unless its
      handler lets the matching continue. Handlers get the route path with the text matched; an exception goes to the
      exception handler, if there is one, with what the handler left. */
  lemma FirstMatchIsCalled(c: Context, routes: seq<Route>, response: Response)
    requires routes != [] && routes[0].pattern(c.path).Some?
    requires routes[0].httpMethod == c.request.httpMethod || routes[0].httpMethod == ""
    ensures var Match(text, named) := routes[0].pattern(c.path).value;
            var parameters := map name | name in named.Keys + c.parameters.Keys ::
                                if name in named then named[name] else c.parameters[name];
            var tried := routes[0].handler(c.request, response, c.routePath + text, parameters);
            Scan(c, routes, response) ==
            match tried.0
            case Returned(true) => Scan(c, routes[1..], tried.1)
            case Returned(false) => tried
            case Threw =>
              if c.exceptionHandler == None then tried
              else
                var handled := c.exceptionHandler.value(c.request, tried.1, c.routePath + text, parameters);
                if handled.0 == Returned(true) then Scan(c, routes[1..], handled.1) else handled
  {
    var Match(text, named) := routes[0].pattern(c.path).value;
    assert MergeParameters(named, c.parameters) ==
           map name | name in named.Keys + c.parameters.Keys :: if name in named then named[name] else c.parameters[name];
  }

  // ---------- Mounted routers ----------

  /** A router as the handler of a route: it looks at the path behind the route path it is given. */
  ghost function Mounted(routes: seq<Route>, exceptionHandler: Option<Handler>): Handler {
    (request: Request, response: Response, routePath: string, parameters: Parameters) =>
      match request.relative(routePath)
      case None => (Threw, response)
      case Some(path) => Scan(Context(request, path, routePath, parameters, exceptionHandler), routes, response)
  }

  /** The paths of a request hold nothing that is encoded. */
  ghost predicate IsPlain(coding: Coding) {
    forall s :: coding.decode(s) == s && coding.encode(s) == s
  }

  /** Behind a prefix that a route has matched, the request's path goes on with the rest, except behind "/". */
  lemma RelativeToMatch(coding: Coding, full: string, routePath: string, path: string, text: string)
    requires IsPlain(coding) && routePath != "/" && RelativePath(coding, full, routePath) == Some(path) && text <= path
    ensures RelativePath(coding, full, routePath + text) == Some(path[|text|..]) <==> routePath + text != "/"
  {
    assert full == routePath + path;
    assert path == text + path[|text|..];
    assert full == (routePath + text) + path[|text|..];
    Parts(routePath + text, path[|text|..]);
    if routePath + text == "/" {
      assert |path[|text|..]| != |full|;
    } else if routePath + text == "" {
      assert full == path[|text|..];
    }
  }

  /** A router mounted at a matched prefix sees exactly the rest of the request's path, with the prefix as its route path
      and the parameters matched so far; one mounted at "/" sees the whole path again. */
  lemma MountedSeesRest(c: Context, coding: Coding, full: string, route: Route, inner: seq<Route>, exceptionHandler: Option<Handler>,
                        response: Response)
    requires IsPlain(coding) && c.request == RequestOf(coding, c.request.httpMethod, full)
    requires c.routePath != "/" && c.request.relative(c.routePath) == Some(c.path) && c.exceptionHandler == None
    requires route.handler == Mounted(inner, exceptionHandler)
    requires route.pattern(c.path).Some? && route.pattern(c.path).value.text <= c.path
    ensures var found := route.pattern(c.path).value;
            var merged := c.routePath + found.text;
            Call(c, route, response) ==
            Scan(Context(c.request, if merged == "/" then full else c.path[|found.text|..], merged,
                         MergeParameters(found.parameters, c.parameters), exceptionHandler), inner, response)
  {
    RelativeToMatch(coding, full, c.routePath, c.path, route.pattern(c.path).value.text);
  }
}
