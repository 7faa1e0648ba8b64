/** The router of `HttpServer`: a table with one list of routes per request
    method, `addRoute` appending to a method's list, `_find` looking up the
    first route whose path equals the request's path, and the dispatch the
    accept loop installs on every connection: the found handler, else the
    default handler, else a synthesized `404 Not found`.

    Handlers are opaque values of a type parameter `H`; what running one does
    to the response is the caller-supplied function `run`. */
module Server {
  import opened Wrappers
  import opened Text
  import opened Headers
  import opened Responses
  import opened Requests
  import Methods

  datatype Route<H> = Route(path: string, handler: H)

  /** One slot per method, nine in all (`_routes` is sized `kPatch + 1`). */
  type RouteTable<H> = t: seq<seq<Route<H>>> | |t| == Methods.NumHttpMethods
    witness seq(Methods.NumHttpMethods, _ => [])

  datatype Router<H> = Router(routes: RouteTable<H>, routeNotFound: Option<H>)

  /** A server before any registration: every slot empty, no default handler. */
  function NewRouter<H>(): (r: Router<H>)
    ensures forall m :: r.routes[Methods.Index(m)] == []
    ensures r.routeNotFound.None?
  {
    Router(seq(Methods.NumHttpMethods, _ => []), None)
  }

  /** Every slot of the table belongs to exactly one method. */
  lemma SlotPerMethod<H>(r: Router<H>)
    ensures forall i :: 0 <= i < |r.routes| ==> Methods.Index(Methods.FromIndex(i)) == i
    ensures forall m, m' :: Methods.Index(m) == Methods.Index(m') ==> m == m'
  {
    Methods.IndexBijective();
  }

  /** `addRoute(m, path, handler)`: the route goes to the end of `m`'s slot;
      the other slots and the default handler stay as they were. */
  function AddRoute<H>(r: Router<H>, m: Methods.HttpMethod, path: string, handler: H): (r': Router<H>)
    ensures r'.routes[Methods.Index(m)] == r.routes[Methods.Index(m)] + [Route(path, handler)]
    ensures forall m' :: m' != m ==> r'.routes[Methods.Index(m')] == r.routes[Methods.Index(m')]
    ensures r'.routeNotFound == r.routeNotFound
  {
    Methods.IndexBijective();
    var i := Methods.Index(m);
    r.(routes := r.routes[i := r.routes[i] + [Route(path, handler)]])
  }

  /** `setDefault(handler)`: replaces the default handler, routes untouched. */
  function SetDefault<H>(r: Router<H>, handler: H): (r': Router<H>)
    ensures r'.routeNotFound == Some(handler) && r'.routes == r.routes
  {
    r.(routeNotFound := Some(handler))
  }

  /** The route's path as `data()` hands it to `compare`: a C string, read up
      to its first NUL. */
  function CPath(path: string): (p: string)
    ensures p <= path && '\0' !in p
    ensures |p| < |path| ==> path[|p|] == '\0'
    ensures '\0' !in path ==> p == path
  {
    TakeUntil(path, '\0')
  }

  /** `request.path.compare(r.path.data()) == 0`. */
  predicate PathMatches<H>(path: string, route: Route<H>) {
    path == CPath(route.path)
  }

  /** `std::find_if` over one slot: the position of the first route whose path
      equals `path`, if any. */
  function FindRoute<H>(routes: seq<Route<H>>, path: string): (r: Option<nat>)
    ensures r.Some? ==> r.value < |routes| && PathMatches(path, routes[r.value])
    ensures r.Some? ==> forall j :: 0 <= j < r.value ==> !PathMatches(path, routes[j])
    ensures r.None? <==> forall j :: 0 <= j < |routes| ==> !PathMatches(path, routes[j])
  {
    if |routes| == 0 then None
    else if PathMatches(path, routes[0]) then Some(0)
    else match FindRoute(routes[1..], path)
      case None => None
      case Some(i) => Some(i + 1)
  }

  /** The slot `_find` consults: the one of the request's method. */
  function Slot<H>(r: Router<H>, req: HttpRequest): seq<Route<H>> {
    r.routes[Methods.Index(req.httpMethod)]
  }

  /** `_find`: the handler of the first matching route in the request method's
      slot, or none when no route there has an equal path. */
  function Find<H>(r: Router<H>, req: HttpRequest): (h: Option<H>)
    ensures h.None? <==> forall j :: 0 <= j < |Slot(r, req)| ==> !PathMatches(req.path, Slot(r, req)[j])
    ensures h.Some? ==>
      exists i :: 0 <= i < |Slot(r, req)| && PathMatches(req.path, Slot(r, req)[i])
        && Slot(r, req)[i].handler == h.value
        && (forall j :: 0 <= j < i ==> !PathMatches(req.path, Slot(r, req)[j]))
  {
    match FindRoute(Slot(r, req), req.path)
    case None => None
    case Some(i) => Some(Slot(r, req)[i].handler)
  }

  /** The fallback when nothing matched and no default handler is set:
      `Content-Type` is set, then `status(404).send("Not found")`. */
  function NotFound(resp: HttpResponse): (out: HttpResponse)
    ensures out.status == 404 && out.body == "Not found"
    ensures Contains(out.headers, "content-type")
    ensures Valid(resp.headers) ==> Valid(out.headers)
  {
    Send(WithStatus(resp.(headers := Set(resp.headers, "Content-Type", DefaultContentType)), 404), "Not found")
  }

  /** The 404 keeps the handler-independent headers of the response it is
      given: a content type already present stays, otherwise the default is
      stored, and every other name is untouched. */
  lemma NotFoundHeaders(resp: HttpResponse, m: string)
    requires Valid(resp.headers)
    ensures Lower(m) == "content-type" ==>
      Get(NotFound(resp).headers, m)
        == if Contains(resp.headers, m) then Get(resp.headers, m) else Some(DefaultContentType)
    ensures Lower(m) != "content-type" ==> Get(NotFound(resp).headers, m) == Get(resp.headers, m)
  {
    var h := Set(resp.headers, "Content-Type", DefaultContentType);
    assert Lower("Content-Type") == "content-type";
    assert Contains(h, "content-type") by {
      LowerOfLowercase("content-type");
      SetThenGet(resp.headers, "Content-Type", DefaultContentType, "content-type");
    }
    assert NotFound(resp).headers == h;
    if Lower(m) == "content-type" {
      SetThenGet(resp.headers, "Content-Type", DefaultContentType, m);
    } else {
      SetKeepsOthers(resp.headers, "Content-Type", DefaultContentType, m);
    }
  }

  /** The callback each connection receives: run the found handler, else the
      default handler, else answer 404. */
  function Dispatch<H>(r: Router<H>, req: HttpRequest, resp: HttpResponse,
                       run: (H, HttpRequest, HttpResponse) -> HttpResponse): (out: HttpResponse)
    ensures Find(r, req).Some? ==> out == run(Find(r, req).value, req, resp)
    ensures Find(r, req).None? && r.routeNotFound.Some? ==> out == run(r.routeNotFound.value, req, resp)
    ensures Find(r, req).None? && r.routeNotFound.None? ==> out.status == 404 && out.body == "Not found"
    ensures Find(r, req).None? && r.routeNotFound.None? ==> out == NotFound(resp)
  {
    match Find(r, req)
    case Some(h) => run(h, req, resp)
    case None =>
      match r.routeNotFound
      case Some(d) => run(d, req, resp)
      case None => NotFound(resp)
  }

  /** On a fresh response, the 404 carries exactly one header, `Content-Type`
      under the caller's spelling with the default type; `send` does not add a
      second one because the key `content-type` is already present. */
  lemma NotFoundShape()
    ensures NotFound(NewResponse()).status == 404
    ensures NotFound(NewResponse()).body == "Not found"
    ensures NotFound(NewResponse()).headers.entries == [Entry("content-type", "Content-Type", DefaultContentType)]
  {
    var h := Set(EmptyHeader(), "Content-Type", DefaultContentType);
    assert Lower("Content-Type") == "content-type";
    assert h.entries == [Entry("content-type", "Content-Type", DefaultContentType)];
    assert Contains(h, "content-type") by {
      LowerOfLowercase("content-type");
    }
  }

  /** Lookup only ever looks at the request method's own slot: two routers
      that agree on that slot find the same handler. */
  lemma FindReadsOnlyItsSlot<H>(r1: Router<H>, r2: Router<H>, req: HttpRequest)
    requires Slot(r1, req) == Slot(r2, req)
    ensures Find(r1, req) == Find(r2, req)
  {
  }

  /** Appending a route is seen by a later lookup only when no earlier route
      of the slot already matched: the first registration wins. */
  lemma FindRouteAppend<H>(routes: seq<Route<H>>, x: Route<H>, path: string)
    ensures FindRoute(routes + [x], path) ==
      if FindRoute(routes, path).Some? then FindRoute(routes, path)
      else if PathMatches(path, x) then Some(|routes|)
      else None
  {
    var rs := routes + [x];
    assert forall j :: 0 <= j < |routes| ==> rs[j] == routes[j];
    assert rs[|routes|] == x;
    match FindRoute(routes, path)
    case Some(i) =>
      assert PathMatches(path, rs[i]);
      FirstMatchUnique(rs, path, i);
    case None =>
      if PathMatches(path, x) {
        FirstMatchUnique(rs, path, |routes|);
      }
  }

  /** A position that matches with no earlier match is what `FindRoute` returns. */
  lemma FirstMatchUnique<H>(routes: seq<Route<H>>, path: string, i: nat)
    requires i < |routes| && PathMatches(path, routes[i])
    requires forall j :: 0 <= j < i ==> !PathMatches(path, routes[j])
    ensures FindRoute(routes, path) == Some(i)
  {
  }

  /** `addRoute` followed by `_find`: for the method registered, an earlier
      match shadows the new route and otherwise the new route answers its own
      path; requests of other methods see no change. */
  lemma FindAfterAddRoute<H>(r: Router<H>, m: Methods.HttpMethod, path: string, handler: H, req: HttpRequest)
    ensures req.httpMethod != m ==> Find(AddRoute(r, m, path, handler), req) == Find(r, req)
    ensures req.httpMethod == m ==>
      Find(AddRoute(r, m, path, handler), req) ==
        (if Find(r, req).Some? then Find(r, req)
         else if req.path == CPath(path) then Some(handler)
         else None)
  {
    var r' := AddRoute(r, m, path, handler);
    if req.httpMethod == m {
      FindRouteAppend(Slot(r, req), Route(path, handler), req.path);
      assert Slot(r', req) == Slot(r, req) + [Route(path, handler)];
      assert (Slot(r, req) + [Route(path, handler)])[|Slot(r, req)|] == Route(path, handler);
    }
  }

  /** Matching is exact: a registered `/v1/hello` does not answer
      `/v1/hello/` or `/V1/hello`, and does answer `/v1/hello`. */
  lemma ExactPathExample<H>(handler: H, req: HttpRequest)
    requires req.httpMethod == Methods.Get
    ensures var r := AddRoute(NewRouter(), Methods.Get, "/v1/hello", handler);
      && (req.path == "/v1/hello" ==> Find(r, req) == Some(handler))
      && (req.path == "/v1/hello/" ==> Find(r, req).None?)
      && (req.path == "/V1/hello" ==> Find(r, req).None?)
  {
    var r0: Router<H> := NewRouter();
    FindAfterAddRoute(r0, Methods.Get, "/v1/hello", handler, req);
    TakeUntilAbsent("/v1/hello", '\0');
  }

  /** Two handlers on the same method and path: the first one registered is
      the one dispatched. */
  lemma FirstRegistrationWins<H>(h1: H, h2: H, req: HttpRequest, path: string,
                                 run: (H, HttpRequest, HttpResponse) -> HttpResponse, resp: HttpResponse)
    requires req.path == CPath(path)
    ensures var r := AddRoute(AddRoute(NewRouter(), req.httpMethod, path, h1), req.httpMethod, path, h2);
      Dispatch(r, req, resp, run) == run(h1, req, resp)
  {
    var r0: Router<H> := NewRouter();
    var r1 := AddRoute(r0, req.httpMethod, path, h1);
    FindAfterAddRoute(r0, req.httpMethod, path, h1, req);
    FindAfterAddRoute(r1, req.httpMethod, path, h2, req);
  }

  /** When no route of the request's method matches its path (whether the
      slot is empty or only holds other paths), a default handler set with
      `setDefault` answers; without one, the 404 of `NotFoundShape` does, with
      its single `Content-Type` entry. */
  lemma MissFallsBack<H>(r: Router<H>, req: HttpRequest, d: H,
                         run: (H, HttpRequest, HttpResponse) -> HttpResponse)
    requires Find(r, req).None?
    ensures Dispatch(SetDefault(r, d), req, NewResponse(), run) == run(d, req, NewResponse())
    ensures r.routeNotFound.None? ==> Dispatch(r, req, NewResponse(), run) == NotFound(NewResponse())
    ensures r.routeNotFound.None? ==>
      Dispatch(r, req, NewResponse(), run).headers.entries
        == [Entry("content-type", "Content-Type", DefaultContentType)]
  {
    NotFoundShape();
  }
}
