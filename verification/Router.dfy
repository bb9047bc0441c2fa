/** The router (api_router.cpp): routes are tried in the order they were added. The expression matching engine
    is a function of each route; handlers are functions of what they are given, which return the response as
    they leave it. */
module Router {
  import opened Results
  import opened HttpHeaders

  const ALLOW := "Allow"

  /** Routes for all methods. */
  const ANY_METHOD := ""

  const EMPTY_STATUS_CODE := 65535
  const METHOD_NOT_ALLOWED := 405
  const NOT_FOUND := 404

  type Parameters = map<string, string>

  /** A match of a route's expression: the text matched, and the named sub-matches that took part. */
  datatype Match = Match(text: string, parameters: Parameters)

  /** `relative` is the part of the request's path behind a route path, if the request has that prefix. */
  datatype Request = Request(httpMethod: string, relative: string -> Option<string>)

  /** Decoding and encoding of paths, which are part of cpprest. */
  datatype Coding = Coding(decode: string -> string, encode: string -> string)

  /** The part of a path behind a route path, if it has that prefix; the whole path behind none. */
  function RelativePath(coding: Coding, path: string, routePath: string): Option<string> {
    if routePath == "" || routePath == "/" then Some(path)
    else
      var prefix, decoded := coding.decode(routePath), coding.decode(path);
      if prefix <= decoded then Some(coding.encode(decoded[|prefix|..])) else None
  }

  function RequestOf(coding: Coding, httpMethod: string, path: string): Request {
    Request(httpMethod, routePath => RelativePath(coding, path, routePath))
  }

  datatype Response = Response(status: nat, headers: Headers)

  /** Whether to continue matching routes, unless there was an exception. */
  datatype Outcome = Returned(continueMatching: bool) | Threw

  type Handler = (Request, Response, string, Parameters) -> (Outcome, Response)

  datatype Route = Route(pattern: string -> Option<Match>, httpMethod: string, handler: Handler)

  /** What stays the same while the routes are tried. */
  datatype Context = Context(
    request: Request,
    path: string,
    routePath: string,
    parameters: Parameters,
    exceptionHandler: Option<Handler>)

  // ---------- The scan of the routes ----------

  predicate Serves(c: Context, route: Route) {
    route.pattern(c.path).Some? && (route.httpMethod == c.request.httpMethod || route.httpMethod == ANY_METHOD)
  }

  predicate Misses(c: Context, route: Route) {
    route.pattern(c.path).Some? && !Serves(c, route)
  }

  /** New parameters replace existing ones with the same name. */
  function MergeParameters(matched: Parameters, existing: Parameters): (merged: Parameters)
    ensures merged.Keys == matched.Keys + existing.Keys
    ensures forall name <- merged :: merged[name] == if name in matched then matched[name] else existing[name]
  {
    existing + matched
  }

  /** An exception goes to the exception handler, if there is one, with the response as it is by then. */
  function Call(c: Context, route: Route, response: Response): (Outcome, Response)
    requires route.pattern(c.path).Some?
  {
    var found := route.pattern(c.path).value;
    var path := c.routePath + found.text;
    var parameters := MergeParameters(found.parameters, c.parameters);
    var (outcome, changed) := route.handler(c.request, response, path, parameters);
    if outcome.Threw? && c.exceptionHandler.Some? then c.exceptionHandler.value(c.request, changed, path, parameters)
    else (outcome, changed)
  }

  ghost function NotAllowed(response: Response, httpMethod: string): Response {
    Response(
      if response.status == EMPTY_STATUS_CODE then METHOD_NOT_ALLOWED else response.status,
      AddValue(response.headers, ALLOW, httpMethod))
  }

  /** One route after the other, until a handler does not let the matching continue. */
  ghost function Scan(c: Context, routes: seq<Route>, response: Response): (Outcome, Response) {
    if routes == [] then (Returned(true), response)
    else if Serves(c, routes[0]) then
      var (outcome, changed) := Call(c, routes[0], response);
      if outcome == Returned(true) then Scan(c, routes[1..], changed) else (outcome, changed)
    else if Misses(c, routes[0]) then
      Scan(c, routes[1..], NotAllowed(response, routes[0].httpMethod))
    else Scan(c, routes[1..], response)
  }

  // ---------- The objects ----------

  class HttpResponse {
    var status: nat
    const headers: HttpHeaders

    ghost function Value(): Response
      reads this, headers
    {
      Response(status, headers.fields)
    }

    constructor ()
      ensures Value() == Response(EMPTY_STATUS_CODE, map[])
      ensures fresh(headers)
    {
      status := EMPTY_STATUS_CODE;
      headers := new HttpHeaders();
    }

    method HandleMethodNotAllowed(httpMethod: string)
      modifies this, headers
      ensures Value() == NotAllowed(old(Value()), httpMethod)
    {
      if status == EMPTY_STATUS_CODE {
        status := METHOD_NOT_ALLOWED;
      }
      var _ := headers.AddHeaderValue(ALLOW, httpMethod);
    }

    method HandledBy(handler: Handler, request: Request, path: string, parameters: Parameters) returns (outcome: Outcome)
      modifies this, headers
      ensures (outcome, Value()) == handler(request, old(Value()), path, parameters)
    {
      var (result, changed) := handler(request, Response(status, headers.fields), path, parameters);
      outcome, status, headers.fields := result, changed.status, changed.headers;
    }
  }

  class ApiRouter {
    var routes: seq<Route>
    var exceptionHandler: Option<Handler>

    constructor ()
      ensures routes == [] && exceptionHandler == None
    {
      routes, exceptionHandler := [], None;
    }

    method Support(route: Route)
      modifies this
      ensures routes == old(routes) + [route] && exceptionHandler == old(exceptionHandler)
    {
      routes := routes + [route];
    }

    /** The recursion stands for the continuation that resumes behind a route when its handler is done. */
    method Run(request: Request, response: HttpResponse, routePath: string, parameters: Parameters, from: nat)
      returns (outcome: Outcome)
      requires from <= |routes|
      modifies response, response.headers
      ensures match request.relative(routePath)
              case None => outcome == Threw && response.Value() == old(response.Value())
              case Some(path) =>
                var c := Context(request, path, routePath, parameters, exceptionHandler);
                (outcome, response.Value()) == Scan(c, routes[from..], old(response.Value()))
      ensures routes == old(routes) && exceptionHandler == old(exceptionHandler)
      decreases |routes| - from
    {
      if request.relative(routePath).None? {
        return Threw;
      }
      var path := request.relative(routePath).value;
      ghost var c := Context(request, path, routePath, parameters, exceptionHandler);
      var route := from;
      while route < |routes|
        invariant from <= route <= |routes|
        invariant unchanged(this)
        invariant Scan(c, routes[from..], old(response.Value())) == Scan(c, routes[route..], response.Value())
      {
        ghost var before := response.Value();
        assert routes[route..][0] == routes[route] && routes[route..][1..] == routes[route + 1..];
        var found := routes[route].pattern(path);
        if found.Some? {
          var mergedPath := routePath + found.value.text;
          var mergedParameters := MergeParameters(found.value.parameters, parameters);
          if routes[route].httpMethod == request.httpMethod || routes[route].httpMethod == ANY_METHOD {
            outcome := CallHandler(routes[route].handler, request, response, mergedPath, mergedParameters);
            assert (outcome, response.Value()) == Call(c, routes[route], before);
            if outcome == Returned(true) {
              outcome := Run(request, response, routePath, parameters, route + 1);
            }
            return;
          }
          response.HandleMethodNotAllowed(routes[route].httpMethod);
        }
        route := route + 1;
      }
      return Returned(true);
    }

    method CallHandler(handler: Handler, request: Request, response: HttpResponse, path: string, parameters: Parameters)
      returns (outcome: Outcome)
      modifies response, response.headers
      ensures var (result, changed) := handler(request, old(response.Value()), path, parameters);
              (outcome, response.Value()) ==
              if result.Threw? && exceptionHandler.Some? then exceptionHandler.value(request, changed, path, parameters)
              else (result, changed)
      ensures routes == old(routes) && exceptionHandler == old(exceptionHandler)
    {
      outcome := response.HandledBy(handler, request, path, parameters);
      if outcome.Threw? && exceptionHandler.Some? {
        outcome := response.HandledBy(exceptionHandler.value, request, path, parameters);
      }
    }

    /** The router as the handler of all requests: it replies itself when the matching was to continue. */
    method Listen(request: Request) returns (outcome: Outcome, response: HttpResponse)
      ensures fresh(response) && fresh(response.headers)
      ensures match request.relative("")
              case None => outcome == Threw
              case Some(path) =>
                var c := Context(request, path, "", map[], exceptionHandler);
                (outcome, response.Value()) == Reply(Scan(c, routes, Response(EMPTY_STATUS_CODE, map[])))
    {
      response := new HttpResponse();
      assert routes[0..] == routes;
      outcome := Run(request, response, "", map[], 0);
      if outcome == Returned(true) && response.status == EMPTY_STATUS_CODE {
        response.status := NOT_FOUND;
      }
    }
  }

  ghost function Reply(scanned: (Outcome, Response)): (Outcome, Response) {
    var (outcome, response) := scanned;
    if outcome == Returned(true) && response.status == EMPTY_STATUS_CODE then (outcome, response.(status := NOT_FOUND))
    else scanned
  }
}
