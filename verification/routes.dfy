/** `app/routes.c`: the route table, the first-match dispatcher
    `handle_routes`, the handlers that build responses, and
    `write_response_helper`, which adds the `Content-Length` header. */
module Routes {
  import opened Wrappers
  import opened Libc
  import opened Utils
  import opened Http
  import opened HttpParse

  /** The header names and values the handlers use. Their definitions are
      not part of this model, so they are parameters. */
  datatype Names = Names(contentLength: CString, contentType: CString, textPlain: CString, octetStream: CString)

  /** `AppState`: the directory given on the command line, NULL when none
      was given. */
  datatype AppState = AppState(directory: Option<CString>)

  /** The file system as the file handlers see it: the contents of every
      path that `stat` finds. */
  type Files = map<string, string>

  // ---------------------------------------------------------------------
  // Responses
  // ---------------------------------------------------------------------

  /** The response `write_response_helper` writes: a non-NULL body of
      length `len > 0` gets one more header, `Content-Length` with `len` in
      decimal, after all the others; any other response is unchanged. */
  function WithContentLength(resp: ResponseData, names: Names): ResponseData
  {
    if resp.body.Bytes? && |resp.body.data| > 0
    then resp.(headers := resp.headers + [Header(names.contentLength, Decimal(|resp.body.data|))])
    else resp
  }

  /** The `Content-Length` header is added exactly when the body is
      non-empty; it is the last header, the ones before it are the
      handler's own, and its value reads back as the body's length. */
  lemma ContentLengthRoundTrip(resp: ResponseData, names: Names)
    ensures var out := WithContentLength(resp, names);
            && out.version == resp.version && out.status == resp.status && out.body == resp.body
            && (|resp.body.Data()| > 0 ==>
                  && |out.headers| == |resp.headers| + 1
                  && out.headers[..|resp.headers|] == resp.headers
                  && out.headers[|resp.headers|].key == names.contentLength
                  && AllDigits(out.headers[|resp.headers|].value)
                  && DecimalValue(out.headers[|resp.headers|].value) == |resp.body.Data()|)
            && (|resp.body.Data()| == 0 ==> out == resp)
  {
    DecimalRoundTrip(|resp.body.Data()|);
    if |resp.body.Data()| > 0 {
      var out := WithContentLength(resp, names);
      assert out.headers[..|resp.headers|] == resp.headers;
    }
  }

  /** What a handler built with `init_response(status)`, an optional
      `Content-Type` header and a body looks like before the helper runs. */
  function Built(status: Status, contentType: Option<Header>, body: Body): ResponseData
  {
    InitResponse(status).(headers := if contentType.Some? then [contentType.value] else [], body := body)
  }

  /** `filepath` of the file handlers: the directory, a `/` unless the
      parameter starts with one or the directory ends with one, and the
      parameter. The `||` tests the parameter first, so the last byte of
      the directory is only read when the parameter does not start with
      `/`; an empty directory then reads the byte before the string. */
  function FilePath(directory: CString, params: CString): (r: Result<string, Fatal>)
    ensures r.Failure? <==> directory == [] && CharAt(params, 0) != '/'
    ensures r.Failure? ==> r.error == OutOfBoundsRead
  {
    if CharAt(params, 0) == '/' then Success(directory + params)
    else if directory == [] then Failure(OutOfBoundsRead)
    else Success(directory + (if directory[|directory| - 1] == '/' then "" else "/") + params)
  }

  /** The path joins directory and parameter with a separator between them,
      and adds one only where neither side has it; with an empty directory
      and a parameter that starts with `/` the path is the parameter. */
  lemma FilePathJoin(directory: CString, params: CString)
    requires directory != [] || CharAt(params, 0) == '/'
    ensures FilePath(directory, params).Success?
    ensures var path := FilePath(directory, params).value;
            var joined := CharAt(params, 0) == '/' || directory[|directory| - 1] == '/';
            && path[..|directory|] == directory
            && path[|path| - |params|..] == params
            && |path| == |directory| + |params| + (if joined then 0 else 1)
            && ((directory != [] && path[|directory| - 1] == '/') || CharAt(path, |directory|) == '/')
            && (directory == [] ==> path == params)
  {
    var path := FilePath(directory, params).value;
    if CharAt(params, 0) == '/' {
      assert path[|directory|] == params[0];
    }
  }

  // ---------------------------------------------------------------------
  // Handlers
  // ---------------------------------------------------------------------

  /** The five handlers of the route table. */
  datatype Handler = Root | Echo | UserAgent | FileGet | FilePost

  /** The response a handler writes, after the helper has run, or the way
      it stops the process. `params` is the wildcard capture (NULL on an
      exact match), `agent` what `find_in_header` returns for the request's
      `User-Agent`, and `files` the file system. */
  function HandlerResponse(h: Handler, params: Option<CString>, state: AppState, files: Files,
                           agent: Option<CString>, names: Names): (r: Result<ResponseData, Fatal>)
  {
    match h
    case Root => Success(WithContentLength(Built(OK, None, Null), names))
    case Echo =>
      if params.None? then Failure(NullDereference)
      else Success(WithContentLength(Built(OK, Some(Header(names.contentType, names.textPlain)), Bytes(params.value)), names))
    case UserAgent =>
      if agent.None? then Failure(NullDereference)
      else Success(WithContentLength(Built(OK, Some(Header(names.contentType, names.textPlain)), Bytes(agent.value)), names))
    case FileGet =>
      if state.directory.None? then Failure(AssertionFailure)
      else if params.None? then Failure(NullDereference)
      else (match FilePath(state.directory.value, params.value)
        case Failure(e) => Failure(e)
        case Success(path) =>
          if path !in files then Success(InitResponse(NOT_FOUND))
          else Success(WithContentLength(Built(OK, Some(Header(names.contentType, names.octetStream)), Bytes(files[path])), names)))
    case FilePost =>
      if state.directory.None? then Failure(AssertionFailure)
      else if params.None? then Failure(NullDereference)
      else (match FilePath(state.directory.value, params.value)
        case Failure(e) => Failure(e)
        case Success(_) => Success(WithContentLength(Built(CREATED, None, Null), names)))
  }

  /** The bytes a handler writes, or the exit it ends in. */
  function HandlerOutput(h: Handler, params: Option<CString>, state: AppState, files: Files,
                         agent: Option<CString>, names: Names): Result<string, Fatal>
  {
    match HandlerResponse(h, params, state, files, agent, names)
    case Failure(e) => Failure(e)
    case Success(resp) => Encode(resp)
  }

  /** The output fits in a buffer of `n` bytes. */
  predicate FitsIn(out: Result<string, Fatal>, n: nat)
  {
    out.Success? ==> |out.value| <= n
  }

  /** `write_response_helper(buf, resp)`: pushes `Content-Length` when the
      body is non-NULL and non-empty, then writes the response. */
  method WriteResponseHelper(buf: array<char>, resp: Response, names: Names) returns (r: Result<nat, Fatal>)
    requires resp.Valid() && buf !in resp.Repr
    requires |VersionText(resp.version)| + 2 <= buf.Length
    requires FitsIn(Encode(WithContentLength(resp.Value(), names)), buf.Length)
    modifies buf, resp.Repr
    ensures resp.Valid() && fresh(resp.Repr - old(resp.Repr))
    ensures resp.Value() == WithContentLength(old(resp.Value()), names)
    ensures Written(buf[..], r, Encode(resp.Value()))
  {
    var body := resp.body;
    if body.Bytes? && |body.data| > 0 {
      var contentLen := Decimal(|body.data|);
      resp.PushHeader(Header(names.contentLength, contentLen));
    }
    r := WriteResponse(buf, resp);
  }

  /** The common shape of the handlers that go through the helper:
      `init_response(status)`, an optional `Content-Type` header, the body,
      `write_response_helper`, `free_http_response`. */
  method Respond(buf: array<char>, status: Status, contentType: Option<Header>, body: Body, names: Names)
    returns (r: Result<nat, Fatal>)
    requires 10 <= buf.Length
    requires FitsIn(Encode(WithContentLength(Built(status, contentType, body), names)), buf.Length)
    modifies buf
    ensures Written(buf[..], r, Encode(WithContentLength(Built(status, contentType, body), names)))
  {
    var resp := new Response(status);
    if contentType.Some? {
      resp.PushHeader(contentType.value);
    }
    resp.SetBody(body);
    assert resp.Value() == Built(status, contentType, body);
    r := WriteResponseHelper(buf, resp, names);
    resp.Free();
  }

  /** `handle_not_found` and `handle_bad_req`: `init_response(status)`
      written as it is, without the helper. */
  method RespondPlain(buf: array<char>, status: Status) returns (r: Result<nat, Fatal>)
    requires 10 <= buf.Length
    requires FitsIn(Encode(InitResponse(status)), buf.Length)
    modifies buf
    ensures Written(buf[..], r, Encode(InitResponse(status)))
  {
    var resp := new Response(status);
    r := WriteResponse(buf, resp);
    resp.Free();
  }

  /** `handle_not_found(buf, req)`: status 404, no headers, no body. */
  method HandleNotFound(buf: array<char>) returns (r: Result<nat, Fatal>)
    requires 10 <= buf.Length && |"HTTP/1.1 404 Not Found\r\n\r\n"| <= buf.Length
    modifies buf
    ensures Written(buf[..], r, Success("HTTP/1.1 404 Not Found\r\n\r\n"))
  {
    NotFoundEncoding();
    r := RespondPlain(buf, NOT_FOUND);
  }

  /** `handle_bad_req(buf, req)`: status 400, no headers, no body. */
  method HandleBadReq(buf: array<char>) returns (r: Result<nat, Fatal>)
    requires 10 <= buf.Length && |"HTTP/1.1 400 Bad Request\r\n\r\n"| <= buf.Length
    modifies buf
    ensures Written(buf[..], r, Success("HTTP/1.1 400 Bad Request\r\n\r\n"))
  {
    InitResponseEncoding(BAD_REQ);
    assert "HTTP/1.1 " + "400 Bad Request" + "\r\n\r\n" == "HTTP/1.1 400 Bad Request\r\n\r\n";
    r := RespondPlain(buf, BAD_REQ);
  }

  /** The not-found response on the wire. */
  lemma NotFoundEncoding()
    ensures Encode(InitResponse(NOT_FOUND)) == Success("HTTP/1.1 404 Not Found\r\n\r\n")
  {
    InitResponseEncoding(NOT_FOUND);
    assert "HTTP/1.1 " + "404 Not Found" + "\r\n\r\n" == "HTTP/1.1 404 Not Found\r\n\r\n";
  }

  /** `handle_root`: status 200 with no headers and a NULL body. */
  method HandleRoot(buf: array<char>, params: Option<CString>, state: AppState, files: Files,
                    agent: Option<CString>, names: Names) returns (r: Result<nat, Fatal>)
    requires 10 <= buf.Length && FitsIn(HandlerOutput(Root, params, state, files, agent, names), buf.Length)
    modifies buf
    ensures Written(buf[..], r, HandlerOutput(Root, params, state, files, agent, names))
  {
    r := Respond(buf, OK, None, Null, names);
  }

  /** `handle_echo`: status 200, a plain-text type, and the parameter as
      the body; a NULL parameter is dereferenced. */
  method HandleEcho(buf: array<char>, params: Option<CString>, state: AppState, files: Files,
                    agent: Option<CString>, names: Names) returns (r: Result<nat, Fatal>)
    requires 10 <= buf.Length && FitsIn(HandlerOutput(Echo, params, state, files, agent, names), buf.Length)
    modifies buf
    ensures Written(buf[..], r, HandlerOutput(Echo, params, state, files, agent, names))
  {
    if params.None? {
      return Failure(NullDereference);
    }
    r := Respond(buf, OK, Some(Header(names.contentType, names.textPlain)), Bytes(params.value), names);
  }

  /** `handle_user_agent`: status 200, a plain-text type, and the request's
      `User-Agent` value as the body; a missing header is dereferenced. */
  method HandleUserAgent(buf: array<char>, params: Option<CString>, state: AppState, files: Files,
                         agent: Option<CString>, names: Names) returns (r: Result<nat, Fatal>)
    requires 10 <= buf.Length && FitsIn(HandlerOutput(UserAgent, params, state, files, agent, names), buf.Length)
    modifies buf
    ensures Written(buf[..], r, HandlerOutput(UserAgent, params, state, files, agent, names))
  {
    if agent.None? {
      return Failure(NullDereference);
    }
    r := Respond(buf, OK, Some(Header(names.contentType, names.textPlain)), Bytes(agent.value), names);
  }

  /** `handle_file_get`: the directory must be set; the file at the joined
      path is sent with an octet-stream type, or 404 when `stat` does not
      find it. */
  method HandleFileGet(buf: array<char>, params: Option<CString>, state: AppState, files: Files,
                       agent: Option<CString>, names: Names) returns (r: Result<nat, Fatal>)
    requires 10 <= buf.Length && FitsIn(HandlerOutput(FileGet, params, state, files, agent, names), buf.Length)
    modifies buf
    ensures Written(buf[..], r, HandlerOutput(FileGet, params, state, files, agent, names))
  {
    if state.directory.None? {
      return Failure(AssertionFailure);
    }
    if params.None? {
      return Failure(NullDereference);
    }
    var joined := FilePath(state.directory.value, params.value);
    if joined.Failure? {
      return Failure(joined.error);
    }
    var path := joined.value;
    if path !in files {
      r := RespondPlain(buf, NOT_FOUND);
      return;
    }
    r := Respond(buf, OK, Some(Header(names.contentType, names.octetStream)), Bytes(files[path]), names);
  }

  /** `handle_file_post`: the directory must be set; the response is
      `init_response(CREATED)` through the helper. */
  method HandleFilePost(buf: array<char>, params: Option<CString>, state: AppState, files: Files,
                        agent: Option<CString>, names: Names) returns (r: Result<nat, Fatal>)
    requires 10 <= buf.Length && FitsIn(HandlerOutput(FilePost, params, state, files, agent, names), buf.Length)
    modifies buf
    ensures Written(buf[..], r, HandlerOutput(FilePost, params, state, files, agent, names))
  {
    if state.directory.None? {
      return Failure(AssertionFailure);
    }
    if params.None? {
      return Failure(NullDereference);
    }
    var joined := FilePath(state.directory.value, params.value);
    if joined.Failure? {
      return Failure(joined.error);
    }
    r := Respond(buf, CREATED, None, Null, names);
  }

  /** `curr->fn(buf, req, params, state)`: the call through the table's
      function pointer. */
  method CallHandler(buf: array<char>, h: Handler, params: Option<CString>, state: AppState, files: Files,
                     agent: Option<CString>, names: Names) returns (r: Result<nat, Fatal>)
    requires 10 <= buf.Length && FitsIn(HandlerOutput(h, params, state, files, agent, names), buf.Length)
    modifies buf
    ensures Written(buf[..], r, HandlerOutput(h, params, state, files, agent, names))
  {
    match h
    case Root => r := HandleRoot(buf, params, state, files, agent, names);
    case Echo => r := HandleEcho(buf, params, state, files, agent, names);
    case UserAgent => r := HandleUserAgent(buf, params, state, files, agent, names);
    case FileGet => r := HandleFileGet(buf, params, state, files, agent, names);
    case FilePost => r := HandleFilePost(buf, params, state, files, agent, names);
  }

  // ---------------------------------------------------------------------
  // Routing
  // ---------------------------------------------------------------------

  /** An entry of the route table: handler, pattern, method. */
  datatype Route = Route(handler: Handler, pattern: CString, httpMethod: Method)

  /** The table of `handle_routes`, in declaration order. */
  const ROUTES: seq<Route> := [
    Route(Root, "/", GET),
    Route(Echo, "/echo/*", GET),
    Route(UserAgent, "/user-agent", GET),
    Route(FileGet, "/files/*", GET),
    Route(FilePost, "/files/*", POST)
  ]

  /** Route `r` takes the request: its pattern matches the url in some
      way and its method is the request's. */
  predicate Accepts(r: Route, url: CString, m: Method)
  {
    WildcardMatch(url, r.pattern) != NO_MATCH && r.httpMethod == m
  }

  /** The parameter a route is called with: NULL for a match at offset 0,
      the url from the wildcard offset on otherwise. */
  function Params(url: CString, res: MatchResult): Option<CString>
    requires res.Offset? && res.at <= |url|
  {
    if res == ALL_MATCH then None else Some(url[res.at..])
  }

  /** The scan of `handle_routes` from entry `i` on: the index of the first
      entry that takes the request, and the parameter it gets. */
  function FirstMatchFrom(url: CString, m: Method, i: nat): (r: Option<(nat, Option<CString>)>)
    requires i <= |ROUTES|
    ensures r.Some? ==> i <= r.value.0 < |ROUTES|
    decreases |ROUTES| - i
  {
    if i == |ROUTES| then None
    else
      var res := WildcardMatch(url, ROUTES[i].pattern);
      if res == NO_MATCH then FirstMatchFrom(url, m, i + 1)
      else if res == ALL_MATCH && ROUTES[i].httpMethod == m then Some((i, None))
      else if ROUTES[i].httpMethod == m then Some((i, Params(url, res)))
      else FirstMatchFrom(url, m, i + 1)
  }

  /** The route `handle_routes` dispatches to. */
  function FirstMatch(url: CString, m: Method): (r: Option<(nat, Option<CString>)>)
    ensures r.Some? ==> r.value.0 < |ROUTES|
  {
    FirstMatchFrom(url, m, 0)
  }

  lemma {:induction false} FirstMatchFromMeaning(url: CString, m: Method, i: nat)
    requires i <= |ROUTES|
    ensures var r := FirstMatchFrom(url, m, i);
            && (r.Some? <==> exists j :: i <= j < |ROUTES| && Accepts(ROUTES[j], url, m))
            && (r.Some? ==> i <= r.value.0 < |ROUTES| && Accepts(ROUTES[r.value.0], url, m)
                            && r.value.1 == Params(url, WildcardMatch(url, ROUTES[r.value.0].pattern))
                            && forall j :: i <= j < r.value.0 ==> !Accepts(ROUTES[j], url, m))
    decreases |ROUTES| - i
  {
    if i < |ROUTES| {
      var route := ROUTES[i];
      FirstMatchFromMeaning(url, m, i + 1);
      if Accepts(route, url, m) {
        assert FirstMatchFrom(url, m, i) == Some((i, Params(url, WildcardMatch(url, route.pattern))));
      } else {
        assert FirstMatchFrom(url, m, i) == FirstMatchFrom(url, m, i + 1);
      }
    }
  }

  /** `handle_routes` dispatches to the first entry, in declaration order,
      whose pattern matches the url and whose method is the request's,
      with NULL for a match at offset 0 and the url from the wildcard on
      otherwise; when there is none it answers not found. */
  lemma FirstMatchMeaning(url: CString, m: Method)
    ensures var r := FirstMatch(url, m);
            && (r.Some? <==> exists j :: 0 <= j < |ROUTES| && Accepts(ROUTES[j], url, m))
            && (r.Some? ==> r.value.0 < |ROUTES| && Accepts(ROUTES[r.value.0], url, m)
                            && r.value.1 == Params(url, WildcardMatch(url, ROUTES[r.value.0].pattern))
                            && forall j :: 0 <= j < r.value.0 ==> !Accepts(ROUTES[j], url, m))
  {
    FirstMatchFromMeaning(url, m, 0);
  }

  /** The bytes `handle_routes` writes for a request, or the exit it ends
      in. */
  function RouteOutput(req: Request, state: AppState, files: Files, agent: Option<CString>, names: Names): Result<string, Fatal>
  {
    match FirstMatch(req.url, req.httpMethod)
    case None => Encode(InitResponse(NOT_FOUND))
    case Some((i, params)) => HandlerOutput(ROUTES[i].handler, params, state, files, agent, names)
  }

  /** `handle_routes(buf, req, state)`: scans the table in order with
      `starts_with_wildcard` and calls the first handler that takes the
      request, or `handle_not_found`. */
  method HandleRoutes(buf: array<char>, req: Request, state: AppState, files: Files, agent: Option<CString>, names: Names)
    returns (r: Result<nat, Fatal>)
    requires 10 <= buf.Length && FitsIn(RouteOutput(req, state, files, agent, names), buf.Length)
    modifies buf
    ensures Written(buf[..], r, RouteOutput(req, state, files, agent, names))
  {
    var i := 0;
    while i < |ROUTES|
      invariant i <= |ROUTES|
      invariant FirstMatchFrom(req.url, req.httpMethod, i) == FirstMatch(req.url, req.httpMethod)
    {
      var curr := ROUTES[i];
      var res := StartsWithWildcard(req.url, curr.pattern);
      if res == NO_MATCH {
        i := i + 1;
      } else if res == ALL_MATCH && curr.httpMethod == req.httpMethod {
        r := CallHandler(buf, curr.handler, None, state, files, agent, names);
        return;
      } else if curr.httpMethod == req.httpMethod {
        r := CallHandler(buf, curr.handler, Params(req.url, res), state, files, agent, names);
        return;
      } else {
        i := i + 1;
      }
    }
    NotFoundEncoding();
    r := HandleNotFound(buf);
  }

  /** The root route: `/` reaches `handle_root` with NULL parameters for a
      GET, and nothing for a POST. */
  lemma RootRoute(m: Method)
    ensures FirstMatch("/", m) == if m == GET then Some((0, None)) else None
  {
    assert WildcardMatch("/", "/") == ALL_MATCH;
    forall j | 1 <= j < |ROUTES|
      ensures WildcardMatch("/", ROUTES[j].pattern) == NO_MATCH
    {
      assert MatchFrom("/", ROUTES[j].pattern, 1) == NO_MATCH;
    }
    FirstMatchMeaning("/", m);
  }

  /** `/echo/<p>` reaches `handle_echo` with `p` for a GET, and no route
      at all for a POST. */
  lemma EchoRoute(p: CString, m: Method)
    requires p != []
    ensures var url: CString := "/echo/" + p;
            FirstMatch(url, m) == if m == GET then Some((1, Some(p))) else None
  {
    var url: CString := "/echo/" + p;
    assert url[..6] == "/echo/" && url[6..] == p && url[6] == p[0];
    assert WildcardAt(url, "/echo/*", 6);
    WildcardMatchMeaning(url, "/echo/*");
    assert MatchFrom(url, "/", 1) == NO_MATCH;
    assert MatchFrom(url, "/user-agent", 1) == NO_MATCH;
    assert MatchFrom(url, "/files/*", 1) == NO_MATCH;
    FirstMatchMeaning(url, m);
  }

  /** `/files/<p>` reaches `handle_file_get` with `p` for a GET and
      `handle_file_post` with `p` for a POST. */
  lemma FilesRoute(p: CString, m: Method)
    requires p != []
    ensures var url: CString := "/files/" + p;
            FirstMatch(url, m) == Some((if m == GET then 3 else 4, Some(p)))
  {
    var url: CString := "/files/" + p;
    FilesPattern(p);
    FilesSkipsEarlierRoutes(p);
    assert FirstMatch(url, m) == FirstMatchFrom(url, m, 3);
  }

  /** `/files/<p>` matches the file pattern with the wildcard at offset 7,
      where `p` starts. */
  lemma FilesPattern(p: CString)
    requires p != []
    ensures var url: CString := "/files/" + p;
            WildcardMatch(url, "/files/*") == Offset(7) && url[7..] == p
  {
    var url: CString := "/files/" + p;
    assert url[..7] == "/files/" && url[7..] == p && url[7] == p[0];
    assert WildcardAt(url, "/files/*", 7);
    WildcardMatchMeaning(url, "/files/*");
  }

  /** `/files/<p>` matches none of the first three patterns. */
  lemma FilesSkipsEarlierRoutes(p: CString)
    ensures var url: CString := "/files/" + p;
            && WildcardMatch(url, "/") == NO_MATCH
            && WildcardMatch(url, "/echo/*") == NO_MATCH
            && WildcardMatch(url, "/user-agent") == NO_MATCH
  {
    var url: CString := "/files/" + p;
    assert MatchFrom(url, "/", 1) == NO_MATCH;
    assert MatchFrom(url, "/echo/*", 1) == NO_MATCH;
    assert MatchFrom(url, "/user-agent", 1) == NO_MATCH;
  }

  /** Every response a handler writes with a non-empty body ends its
      headers with a `Content-Length` that reads back as the body's
      length. */
  lemma HandlerContentLength(h: Handler, params: Option<CString>, state: AppState, files: Files,
                             agent: Option<CString>, names: Names)
    ensures var r := HandlerResponse(h, params, state, files, agent, names);
            r.Success? && |r.value.body.Data()| > 0 ==>
              && |r.value.headers| > 0
              && r.value.headers[|r.value.headers| - 1].key == names.contentLength
              && DecimalValue(r.value.headers[|r.value.headers| - 1].value) == |r.value.body.Data()|
  {
    var r := HandlerResponse(h, params, state, files, agent, names);
    if r.Success? && |r.value.body.Data()| > 0 {
      var pre: ResponseData :| r.value == WithContentLength(pre, names) && |pre.body.Data()| > 0 by {
        match h
        case Root =>
        case Echo =>
        case UserAgent =>
        case FileGet =>
        case FilePost =>
      }
      ContentLengthRoundTrip(pre, names);
    }
  }

  /** A response with two headers and a body, as `write_response` writes
      it. */
  lemma EncodeTwoHeaders(status: Status, h1: Header, h2: Header, d: string)
    requires StatusText(status).Some?
    ensures Encode(ResponseData(HTTP1_1, status, [h1, h2], Bytes(d)))
              == Success("HTTP/1.1 " + StatusText(status).value + "\r\n" + (HeaderLine(h1) + HeaderLine(h2) + "\r\n") + d)
  {
    var hs := [h1, h2];
    assert HeaderLines(hs) == HeaderLine(h1) + HeaderLine(h2) by {
      assert hs[..1] == [h1];
      assert HeaderLines([h1]) == HeaderLine(h1) by { assert [h1][..0] == []; }
    }
    assert "HTTP/1.1" + " " == "HTTP/1.1 ";
  }

  /** `handle_echo` answers with status 200, a `Content-Type` of plain
      text, a `Content-Length` of `|p|` in decimal, and `p` as the body. */
  lemma EchoHandlerOutput(p: CString, state: AppState, files: Files, agent: Option<CString>, names: Names)
    requires p != []
    ensures HandlerOutput(Echo, Some(p), state, files, agent, names)
              == Success("HTTP/1.1 200 OK\r\n"
                         + (HeaderLine(Header(names.contentType, names.textPlain))
                            + HeaderLine(Header(names.contentLength, Decimal(|p|)))
                            + "\r\n")
                         + p)
  {
    var ct, cl := Header(names.contentType, names.textPlain), Header(names.contentLength, Decimal(|p|));
    var resp := ResponseData(HTTP1_1, OK, [ct, cl], Bytes(p));
    EchoHandlerResponse(p, state, files, agent, names);
    EncodeTwoHeaders(OK, ct, cl, p);
    OkStatusLine();
    assert Encode(resp) == HandlerOutput(Echo, Some(p), state, files, agent, names);
  }

  /** `handle_echo` builds a 200 response with a plain-text type, the
      `Content-Length` after it, and body `p`. */
  lemma EchoHandlerResponse(p: CString, state: AppState, files: Files, agent: Option<CString>, names: Names)
    requires p != []
    ensures var ct, cl := Header(names.contentType, names.textPlain), Header(names.contentLength, Decimal(|p|));
            HandlerResponse(Echo, Some(p), state, files, agent, names) == Success(ResponseData(HTTP1_1, OK, [ct, cl], Bytes(p)))
  {
    var ct, cl := Header(names.contentType, names.textPlain), Header(names.contentLength, Decimal(|p|));
    assert [ct] + [cl] == [ct, cl];
  }

  /** The status line of a 200 response. */
  lemma OkStatusLine()
    ensures "HTTP/1.1 " + StatusText(OK).value + "\r\n" == "HTTP/1.1 200 OK\r\n"
  {
  }

  /** `GET /echo/<p>` goes to `handle_echo` with `p`, so it is answered as
      `EchoHandlerOutput` says. */
  lemma EchoResponse(p: CString, req: Request, state: AppState, files: Files, agent: Option<CString>, names: Names)
    requires p != []
    requires req.httpMethod == GET && req.url == "/echo/" + p
    ensures RouteOutput(req, state, files, agent, names) == HandlerOutput(Echo, Some(p), state, files, agent, names)
  {
    EchoRoute(p, GET);
  }

  /** A GET for a file the directory does not hold is answered with 404
      and nothing else. */
  lemma MissingFileNotFound(p: CString, d: CString, files: Files, agent: Option<CString>, names: Names)
    requires p != [] && FilePath(d, p).Success? && FilePath(d, p).value !in files
    ensures HandlerOutput(FileGet, Some(p), AppState(Some(d)), files, agent, names)
              == Success("HTTP/1.1 404 Not Found\r\n\r\n")
  {
    NotFoundEncoding();
  }

  /** With an empty directory, a `/`-prefixed parameter is the path
      itself, and any other parameter makes both file handlers read the
      byte before the directory string. */
  lemma EmptyDirectoryPath(p: CString, files: Files, agent: Option<CString>, names: Names)
    requires p != []
    ensures p[0] == '/' ==> FilePath([], p) == Success(p)
    ensures p[0] != '/' ==>
              && HandlerOutput(FileGet, Some(p), AppState(Some([])), files, agent, names) == Failure(OutOfBoundsRead)
              && HandlerOutput(FilePost, Some(p), AppState(Some([])), files, agent, names) == Failure(OutOfBoundsRead)
  {
    if p[0] == '/' {
      FilePathJoin([], p);
    }
  }

  /** As written, every POST to `/files/<p>` with a directory ends in the
      exit of `write_status`, which has no case for 201. */
  lemma FilePostAsWritten(p: CString, d: CString, files: Files, agent: Option<CString>, names: Names)
    requires p != [] && (d != [] || p[0] == '/')
    ensures HandlerOutput(FilePost, Some(p), AppState(Some(d)), files, agent, names) == Failure(ExitUnsupportedStatus)
  {
  }

  /** With the `CREATED` case, the same POST is answered with status 201
      and an empty header block. */
  lemma FilePostCorrected(p: CString, d: CString, files: Files, agent: Option<CString>, names: Names)
    requires p != [] && (d != [] || p[0] == '/')
    ensures var r := HandlerResponse(FilePost, Some(p), AppState(Some(d)), files, agent, names);
            r.Success? && EncodeCorrected(r.value) == "HTTP/1.1 201 Created\r\n\r\n"
  {
    var r := HandlerResponse(FilePost, Some(p), AppState(Some(d)), files, agent, names);
    assert r.value == InitResponse(CREATED);
    assert HeaderBlock([]) == CRLF;
  }
}
