/**
 * The request dispatcher: the catch-all handler that tries the three route
 * patterns, and the UploadPack, ReceivePack and InfoRefs handlers.
 *
 * A handler's effect on the response writer is captured as a descriptor: the
 * status, the Content-Type it adds (None when it adds none), the bytes it
 * writes before the git process's output, and the git process it starts, if any.
 */
module Dispatcher {
  import opened Wrappers
  import PktLine
  import FilePath
  import Sanitizer

  /** The service configuration the handlers read: the repositories root and the OS. */
  datatype Config = Config(reposPath: string, windows: bool)

  /** What the handlers read of a request; service is Query().Get("service"), "" when absent. */
  datatype Request = Request(path: string, httpMethod: string, service: string)

  /** A call of runCommand: the git program, its arguments and the directory passed in. */
  datatype Invocation = Invocation(command: string, args: seq<string>, cwd: string)

  datatype Response = Response(
    status: nat,
    contentType: Option<string>,
    body: string,
    invocation: Option<Invocation>)

  datatype Route = UploadPackRoute | ReceivePackRoute | InfoRefsRoute

  /** The routes in the order the handler map lists them. */
  const Routes: seq<Route> := [UploadPackRoute, ReceivePackRoute, InfoRefsRoute]

  lemma RouteListed(route: Route)
    ensures route in Routes
  {
    match route
    case UploadPackRoute => assert Routes[0] == route;
    case ReceivePackRoute => assert Routes[1] == route;
    case InfoRefsRoute => assert Routes[2] == route;
  }

  /** The fixed text each pattern must end with. */
  function Suffix(route: Route): string {
    match route
    case UploadPackRoute => "/git-upload-pack"
    case ReceivePackRoute => "/git-receive-pack"
    case InfoRefsRoute => "/info/refs"
  }

  predicate HasSuffix(s: string, t: string) {
    |t| <= |s| && s[|s| - |t|..] == t
  }

  /**
   * The longest tail of s without a newline. In Go's regexp '.' does not
   * match '\n', so this is what a leading "(.*?)" can capture.
   */
  function AfterLastNewline(s: string): (r: string)
    ensures |r| <= |s| && s[|s| - |r|..] == r
    ensures '\n' !in r
    ensures |r| == |s| || s[|s| - |r| - 1] == '\n'
  {
    if s == [] then []
    else if s[|s| - 1] == '\n' then []
    else
      var r := AfterLastNewline(s[..|s| - 1]);
      assert s[..|s| - 1][|s| - 1 - |r|..] == s[|s| - 1 - |r|..|s| - 1];
      r + [s[|s| - 1]]
  }

  /**
   * FindStringSubmatch of "(.*?)" + sfx + "$" on path, for a suffix without
   * newlines or regexp metacharacters: the first group when there is a match.
   */
  function SubmatchBefore(sfx: string, path: string): (r: Option<string>)
    ensures r.Some? <==> HasSuffix(path, sfx)
  {
    if HasSuffix(path, sfx) then Some(AfterLastNewline(path[..|path| - |sfx|])) else None
  }

  /**
   * The group is the leftmost match Go's regexp finds: the path ends with the
   * group and then the suffix, the group holds no newline, and it starts at
   * the beginning of the path or right after a newline.
   */
  lemma SubmatchShape(sfx: string, path: string)
    requires HasSuffix(path, sfx)
    ensures var c := SubmatchBefore(sfx, path).value;
      var k := |path| - |sfx| - |c|;
      0 <= k && path[k..] == c + sfx
      && '\n' !in c && (k == 0 || path[k - 1] == '\n')
  {
    var prefix := path[..|path| - |sfx|];
    var c := AfterLastNewline(prefix);
    var k := |prefix| - |c|;
    assert path == prefix + sfx;
    assert prefix[k..] == c;
    assert path[k..] == prefix[k..] + sfx by {
      assert path[k..] == (prefix + sfx)[k..];
    }
  }

  /** The repository path a route's pattern captures from path, if it matches. */
  function Capture(route: Route, path: string): Option<string> {
    SubmatchBefore(Suffix(route), path)
  }

  /** The last characters of a string with a suffix are the suffix's. */
  lemma SuffixChar(path: string, t: string, i: nat)
    requires HasSuffix(path, t) && i < |t|
    ensures path[|path| - 1 - i] == t[|t| - 1 - i]
  {
    assert path[|path| - |t|..][|t| - 1 - i] == path[|path| - 1 - i];
  }

  /** The first route, in the given order, whose pattern matches, with its capture. */
  function FirstMatch(order: seq<Route>, path: string): (r: Option<(Route, string)>)
    ensures r.Some? ==> r.value.0 in order && Capture(r.value.0, path) == Some(r.value.1)
  {
    if order == [] then None
    else match Capture(order[0], path)
      case Some(c) => Some((order[0], c))
      case None => FirstMatch(order[1..], path)
  }

  /** The search fails only when no route in the order matches. */
  lemma {:induction false} FirstMatchFinds(order: seq<Route>, path: string, route: Route)
    requires route in order && Capture(route, path).Some?
    ensures FirstMatch(order, path).Some?
  {
    if order[0] != route && Capture(order[0], path).None? {
      assert route in order[1..];
      FirstMatchFinds(order[1..], path, route);
    }
  }

  /** UploadPack: git-upload-pack for a POST, 405 otherwise. */
  function UploadPack(cfg: Config, req: Request, repoPath: string): (r: Response)
    ensures r.invocation.Some? <==> req.httpMethod == "POST"
    ensures req.httpMethod != "POST" ==> r == Response(405, None, "Method Not Allowed", None)
  {
    if req.httpMethod != "POST" then Response(405, None, "Method Not Allowed", None)
    else
      var cmd := "git-upload-pack";
      var cwd := FilePath.Join(cfg.windows, cfg.reposPath, repoPath);
      Response(200, Some("application/x-" + cmd + "-result"), "",
        Some(Invocation(cmd, ["--stateless-rpc", "."], cwd)))
  }

  /** ReceivePack: git-receive-pack for a POST, 405 otherwise. */
  function ReceivePack(cfg: Config, req: Request, repoPath: string): (r: Response)
    ensures r.invocation.Some? <==> req.httpMethod == "POST"
    ensures req.httpMethod != "POST" ==> r == Response(405, None, "Method Not Allowed", None)
  {
    if req.httpMethod != "POST" then Response(405, None, "Method Not Allowed", None)
    else
      var cmd := "git-receive-pack";
      var cwd := FilePath.Join(cfg.windows, cfg.reposPath, repoPath);
      Response(200, Some("application/x-" + cmd + "-result"), "",
        Some(Invocation(cmd, ["--stateless-rpc", "."], cwd)))
  }

  predicate IsService(cmd: string) {
    cmd == "git-receive-pack" || cmd == "git-upload-pack"
  }

  /** The bytes InfoRefs writes before git's advertisement. */
  function Preamble(cmd: string): (r: string)
    // a reader sees the service line as one frame and then a flush
    ensures |cmd| + 15 < 0x1_0000 ==>
      PktLine.ParseFrames(r) == Some([PktLine.Data("# service=" + cmd + "\n"), PktLine.Flush])
  {
    var line := "# service=" + cmd + "\n";
    var r := PktLine.PacketWrite(line) + PktLine.PacketFlush();
    if |cmd| + 15 < 0x1_0000 then PktLine.PacketThenFlush(line); r else r
  }

  /** InfoRefs: the ref advertisement for a GET naming a known service. */
  function InfoRefs(cfg: Config, req: Request, repoPath: string): (r: Response)
    ensures r.invocation.Some? <==> req.httpMethod == "GET" && IsService(req.service)
    ensures req.httpMethod != "GET" ==> r.status == 405
    ensures req.httpMethod == "GET" && !IsService(req.service) ==> r.status == 400
  {
    if req.httpMethod != "GET" then Response(405, None, "Method Not Allowed", None)
    else
      var cmd := req.service;
      var cwd := FilePath.Join(cfg.windows, cfg.reposPath, repoPath);
      if !IsService(cmd) then Response(400, None, "Bad Request", None)
      else
        Response(200, Some("application/x-" + cmd + "-advertisement"), Preamble(cmd),
          Some(Invocation(cmd, ["--stateless-rpc", "--advertise-refs", "."], cwd)))
  }

  function RouteHandler(route: Route, cfg: Config, req: Request, repoPath: string): Response {
    match route
    case UploadPackRoute => UploadPack(cfg, req, repoPath)
    case ReceivePackRoute => ReceivePack(cfg, req, repoPath)
    case InfoRefsRoute => InfoRefs(cfg, req, repoPath)
  }

  /** The catch-all handler, trying the routes in the given order. */
  function Dispatch(cfg: Config, order: seq<Route>, req: Request): (r: Response)
    // whichever listed route matches answers, with its own capture
    ensures forall route :: route in order && Capture(route, req.path).Some? ==>
      r == RouteHandler(route, cfg, req, Capture(route, req.path).value)
    // and when none does, the answer is 400 "Bad Request" and nothing runs
    ensures (forall route :: route in order ==> Capture(route, req.path).None?) ==>
      r == Response(400, None, "Bad Request", None)
  {
    MatchedRoutes(order, req.path);
    match FirstMatch(order, req.path)
    case None => Response(400, None, "Bad Request", None)
    case Some((route, repoPath)) => RouteHandler(route, cfg, req, repoPath)
  }

  /** An order in which a Go map may yield the three routes: each of them, once. */
  predicate IsRouteOrder(order: seq<Route>) {
    |order| == 3 && UploadPackRoute in order && ReceivePackRoute in order && InfoRefsRoute in order
  }

  /** The catch-all handler with the routes in declaration order. */
  function Handle(cfg: Config, req: Request): (r: Response)
    ensures r.status == 200 || r.status == 400 || r.status == 405
    ensures r.invocation.Some? <==> r.status == 200
    ensures r.status != 200 ==> r.contentType.None? && (r.body == "Bad Request" || r.body == "Method Not Allowed")
  {
    DispatchFacts(cfg, Routes, req);
    Dispatch(cfg, Routes, req)
  }

  /** Whatever the order: three statuses, a process exactly on 200, plain errors. */
  lemma DispatchFacts(cfg: Config, order: seq<Route>, req: Request)
    ensures var r := Dispatch(cfg, order, req);
      && (r.status == 200 || r.status == 400 || r.status == 405)
      && (r.invocation.Some? <==> r.status == 200)
      && (r.status != 200 ==> r.contentType.None? && (r.body == "Bad Request" || r.body == "Method Not Allowed"))
  {
    var m := FirstMatch(order, req.path);
    if m.Some? {
      assert Dispatch(cfg, order, req) == RouteHandler(m.value.0, cfg, req, m.value.1);
      HandlerFacts(m.value.0, cfg, req, m.value.1);
    } else {
      assert Dispatch(cfg, order, req) == Response(400, None, "Bad Request", None);
    }
  }

  lemma HandlerFacts(route: Route, cfg: Config, req: Request, repoPath: string)
    ensures var r := RouteHandler(route, cfg, req, repoPath);
      && (r.status == 200 || r.status == 400 || r.status == 405)
      && (r.invocation.Some? <==> r.status == 200)
      && (r.status != 200 ==> r.contentType.None? && (r.body == "Bad Request" || r.body == "Method Not Allowed"))
  {
  }

  /** In any route order, a matching route is the one chosen. */
  lemma MatchedRoute(order: seq<Route>, path: string, route: Route)
    requires route in order && Capture(route, path).Some?
    ensures FirstMatch(order, path) == Some((route, Capture(route, path).value))
  {
    FirstMatchFinds(order, path, route);
    var m := FirstMatch(order, path);
    RoutesExclusive(path, m.value.0, route);
  }

  /** MatchedRoute for every route at once. */
  lemma MatchedRoutes(order: seq<Route>, path: string)
    ensures forall route :: route in order && Capture(route, path).Some? ==>
      FirstMatch(order, path) == Some((route, Capture(route, path).value))
  {
    forall route | route in order && Capture(route, path).Some?
      ensures FirstMatch(order, path) == Some((route, Capture(route, path).value))
    {
      MatchedRoute(order, path, route);
    }
  }

  // ----- lemmas -----

  /** No path ends with two of the suffixes, so at most one pattern matches. */
  lemma RoutesExclusive(path: string, r1: Route, r2: Route)
    ensures Capture(r1, path).Some? && Capture(r2, path).Some? ==> r1 == r2
  {
    var s1, s2 := Suffix(r1), Suffix(r2);
    if r1 != r2 && HasSuffix(path, s1) && HasSuffix(path, s2) {
      // "/info/refs" ends in 's', the pack suffixes in 'k'; the pack suffixes
      // differ six characters from the end ('d' against 'e')
      var i := if r1 == InfoRefsRoute || r2 == InfoRefsRoute then 0 else 5;
      SuffixChar(path, s1, i);
      SuffixChar(path, s2, i);
    }
  }

  /**
   * The response does not depend on the order in which the route map is
   * iterated.
   */
  lemma DispatchOrderIrrelevant(cfg: Config, order: seq<Route>, req: Request)
    requires IsRouteOrder(order)
    ensures Dispatch(cfg, order, req) == Handle(cfg, req)
  {
    var p := req.path;
    var mc := FirstMatch(Routes, p);
    if mc.Some? {
      FirstMatchFinds(order, p, mc.value.0);
    }
    var mo := FirstMatch(order, p);
    if mo.Some? {
      var route := mo.value.0;
      RouteListed(route);
      MatchedRoute(Routes, p, route);
      MatchedRoute(order, p, route);
    }
    assert mo == mc;
    assert Handle(cfg, req) == Dispatch(cfg, Routes, req);
  }

  /** Without a matching pattern the answer is 400 "Bad Request" and nothing runs. */
  lemma UnmatchedIsBadRequest(cfg: Config, req: Request)
    requires forall route :: Capture(route, req.path).None?
    ensures Handle(cfg, req) == Response(400, None, "Bad Request", None)
  {
  }

  /** The repository path handed to a handler is the path less its suffix. */
  lemma CapturedRepoPath(cfg: Config, req: Request, route: Route)
    requires HasSuffix(req.path, Suffix(route)) && '\n' !in req.path
    ensures FirstMatch(Routes, req.path)
      == Some((route, req.path[..|req.path| - |Suffix(route)|]))
  {
    SubmatchShape(Suffix(route), req.path);
    var c := Capture(route, req.path).value;
    var k := |req.path| - |Suffix(route)| - |c|;
    if k > 0 {
      assert false;
    }
    assert req.path == c + Suffix(route);
    RouteListed(route);
    MatchedRoute(Routes, req.path, route);
  }

  /**
   * 405 is the answer exactly when the path matches a pattern whose handler
   * wants the other method.
   */
  lemma MethodNotAllowedExactly(cfg: Config, req: Request)
    ensures Handle(cfg, req).status == 405 <==>
      (HasSuffix(req.path, Suffix(InfoRefsRoute)) && req.httpMethod != "GET")
      || ((HasSuffix(req.path, Suffix(UploadPackRoute)) || HasSuffix(req.path, Suffix(ReceivePackRoute)))
          && req.httpMethod != "POST")
  {
    var p := req.path;
    RoutesExclusive(p, UploadPackRoute, ReceivePackRoute);
    RoutesExclusive(p, UploadPackRoute, InfoRefsRoute);
    RoutesExclusive(p, ReceivePackRoute, InfoRefsRoute);
    if HasSuffix(p, Suffix(UploadPackRoute)) {
      WrongMethodOn(cfg, req, UploadPackRoute);
    } else if HasSuffix(p, Suffix(ReceivePackRoute)) {
      WrongMethodOn(cfg, req, ReceivePackRoute);
    } else if HasSuffix(p, Suffix(InfoRefsRoute)) {
      WrongMethodOn(cfg, req, InfoRefsRoute);
    } else {
      UnmatchedIsBadRequest(cfg, req);
    }
  }

  /** On a matching route, 405 comes exactly from the method that route does not take. */
  lemma WrongMethodOn(cfg: Config, req: Request, route: Route)
    requires HasSuffix(req.path, Suffix(route))
    ensures Handle(cfg, req).status == 405 <==>
      req.httpMethod != (if route == InfoRefsRoute then "GET" else "POST")
  {
    RouteListed(route);
    assert Handle(cfg, req) == RouteHandler(route, cfg, req, Capture(route, req.path).value);
  }

  /** A pack route answers a request that is not a POST with 405 and runs nothing. */
  lemma PackWrongMethod(cfg: Config, req: Request, route: Route)
    requires route == UploadPackRoute || route == ReceivePackRoute
    requires HasSuffix(req.path, Suffix(route)) && req.httpMethod != "POST"
    ensures Handle(cfg, req) == Response(405, None, "Method Not Allowed", None)
  {
    RouteListed(route);
    MatchedRoute(Routes, req.path, route);
  }

  /**
   * A POST to a pack route commits 200 with the result content type and runs
   * the matching git program in stateless-rpc mode in root joined with the
   * repository path.
   */
  lemma PackPost(cfg: Config, req: Request, route: Route)
    requires route == UploadPackRoute || route == ReceivePackRoute
    requires HasSuffix(req.path, Suffix(route)) && req.httpMethod == "POST"
    ensures var cmd := Suffix(route)[1..];
      var repoPath := Capture(route, req.path).value;
      Handle(cfg, req) == Response(200, Some("application/x-" + cmd + "-result"), "",
        Some(Invocation(cmd, ["--stateless-rpc", "."], FilePath.Join(cfg.windows, cfg.reposPath, repoPath))))
  {
    RouteListed(route);
    MatchedRoute(Routes, req.path, route);
    assert Suffix(UploadPackRoute)[1..] == "git-upload-pack";
    assert Suffix(ReceivePackRoute)[1..] == "git-receive-pack";
  }

  /**
   * info/refs checks the method before the service, rejects an unknown
   * service with 400, and otherwise advertises with the service's content
   * type, the preamble and git's --advertise-refs mode.
   */
  lemma InfoRefsDecision(cfg: Config, req: Request)
    requires HasSuffix(req.path, Suffix(InfoRefsRoute))
    ensures var r := Handle(cfg, req);
      var repoPath := Capture(InfoRefsRoute, req.path).value;
      && (req.httpMethod != "GET" ==> r == Response(405, None, "Method Not Allowed", None))
      && (req.httpMethod == "GET" && !IsService(req.service) ==> r == Response(400, None, "Bad Request", None))
      && (req.httpMethod == "GET" && IsService(req.service) ==>
            r == Response(200, Some("application/x-" + req.service + "-advertisement"),
              Preamble(req.service),
              Some(Invocation(req.service, ["--stateless-rpc", "--advertise-refs", "."],
                FilePath.Join(cfg.windows, cfg.reposPath, repoPath)))))
  {
    RouteListed(InfoRefsRoute);
    MatchedRoute(Routes, req.path, InfoRefsRoute);
  }

  /**
   * The preamble reads back as two frames: the "# service=<cmd>\n" line and
   * a flush.
   */
  lemma PreambleFrames(cmd: string)
    requires IsService(cmd)
    ensures PktLine.ParseFrames(Preamble(cmd)) ==
      Some([PktLine.Data("# service=" + cmd + "\n"), PktLine.Flush])
  {
    var line := "# service=" + cmd + "\n";
    assert |line| <= 27;
    PktLine.PacketThenFlush(line);
  }

  /**
   * runCommand sanitizes the directory it is given; on Unix, with an absolute
   * root, that directory is already clean and absolute, so the process runs
   * in exactly Join(root, repoPath).
   */
  lemma ProcessDirectory(root: string, repoPath: string)
    requires FilePath.IsRooted(false, root)
    ensures var cwd := FilePath.Join(false, root, repoPath);
      Sanitizer.SanitizedPath(false, cwd) == cwd
  {
    var cwd := FilePath.Join(false, root, repoPath);
    FilePath.JoinIsClean(false, root, repoPath);
    assert cwd[0] == '/';
    assert !Sanitizer.StartsWithParent(cwd);
  }

  /**
   * Nothing sanitizes the repository path before it is joined to the root:
   * a repository path "/.." puts the git process in the root's parent.
   */
  lemma JoinLeavesRoot()
    ensures FilePath.Join(false, "/r", "/..") == "/"
    ensures Sanitizer.SanitizedPath(false, FilePath.Join(false, "/r", "/..")) == "/"
  {
    var p := "/r" + ['/'] + "/..";
    var parts := ["", "r", "", ".."];
    assert p == "/r//..";
    assert FilePath.JoinSegs(parts, '/') == p;
    FilePath.SplitJoin(false, parts);
    assert FilePath.Resolve(true, ["r"], parts[2..]) == [];
    assert FilePath.Resolve(true, [], parts) == [];
    ProcessDirectory("/r", "/..");
  }
}
