/** What a client reads for each request, route by route, in the bytes that cross the wire. */
module SessionAnswers {
  import opened Bytes
  import opened Decimal
  import opened Grammar
  import opened RequestParser
  import opened ResponseBuilder
  import opened SessionLifetime
  import opened SessionModel
  import opened SessionRuns
  import opened SessionWire

  // --- The printed bytes ----------------------------------------------------------------------------

  const STATUSES: map<HttpStatus, (nat, bytes)> := map[
    OK := (200, "OK"),
    CREATED := (201, "Created"),
    NO_CONTENT := (204, "No Content"),
    MOVED_PERMANENTLY := (301, "Moved Permanently"),
    FOUND := (302, "Found"),
    NOT_MODIFIED := (304, "Not Modified"),
    BAD_REQUEST := (400, "Bad Request"),
    UNAUTHORIZED := (401, "Unauthorized"),
    FORBIDDEN := (403, "Forbidden"),
    NOT_FOUND := (404, "Not Found"),
    METHOD_NOT_ALLOWED := (405, "Method Not Allowed"),
    CONFLICT := (409, "Conflict"),
    INTERNAL_SERVER_ERROR := (500, "Internal Server Error"),
    NOT_IMPLEMENTED := (501, "Not Implemented"),
    SERVICE_UNAVAILABLE := (503, "Service Unavailable")]

  const TEXT_TYPES: map<bytes, bytes> := map[
    ".html" := "text/html; charset=utf-8",
    ".htm" := "text/html; charset=utf-8",
    ".css" := "text/css",
    ".js" := "application/javascript",
    ".json" := "application/json",
    ".xml" := "application/xml",
    ".txt" := "text/plain",
    ".pdf" := "application/pdf",
    ".zip" := "application/zip"]

  const MEDIA_TYPES: map<bytes, bytes> := map[
    ".jpg" := "image/jpeg",
    ".jpeg" := "image/jpeg",
    ".png" := "image/png",
    ".gif" := "image/gif",
    ".svg" := "image/svg+xml",
    ".ico" := "image/x-icon",
    ".mp4" := "video/mp4",
    ".mp3" := "audio/mpeg"]

  /** The status line of every status: version, number and text. */
  lemma StatusLineInBytes(status: HttpStatus)
    ensures status in STATUSES
    ensures StatusLine(status) == "HTTP/1.1 " + ToString(STATUSES[status].0) + " " + STATUSES[status].1
  {
    StatusInTable(status);
  }

  lemma StatusInTable(status: HttpStatus)
    ensures status in STATUSES && STATUSES[status] == (Code(status), StatusMessage(status))
  {}

  /** Each header is printed once, as a line of its name, a colon, a space and its value. */
  lemma HeaderInBytes(r: Response, items: seq<Field>, key: bytes) returns (before: bytes, after: bytes)
    requires Enumerates(items, r.headers) && key in r.headers
    ensures Rendered(r, items)
            == StatusLine(r.status) + "\r\n" + before + (key + ": " + r.headers[key] + "\r\n") + after + "\r\n" + r.body
  {
    var k :| 0 <= k < |items| && items[k].name == key;
    before, after := PrintFields(items[..k]), PrintFields(items[k + 1..]);
    LineInFields(items, k);
    var line := PrintField(items[k]);
    assert line == key + ": " + r.headers[key];
    InParts(StatusLine(r.status), before, line, after, r.body);
  }

  lemma InParts(status: bytes, before: bytes, line: bytes, after: bytes, body: bytes)
    ensures status + CRLF + ((before + (line + CRLF + after)) + CRLF + body)
            == status + "\r\n" + before + (line + "\r\n") + after + "\r\n" + body
  {}

  lemma {:induction false} LineInFields(items: seq<Field>, k: nat)
    requires k < |items|
    ensures PrintFields(items) == PrintFields(items[..k]) + (PrintField(items[k]) + CRLF + PrintFields(items[k + 1..]))
    decreases k
  {
    if k > 0 {
      LineInFields(items[1..], k - 1);
      assert items[1..][..k - 1] == items[..k][1..] && items[1..][k..] == items[k + 1..];
      assert PrintFields(items[..k]) == PrintField(items[0]) + CRLF + PrintFields(items[..k][1..]);
      Regroup(PrintField(items[0]) + CRLF, PrintFields(items[..k][1..]),
              PrintField(items[k]) + CRLF + PrintFields(items[k + 1..]));
    } else {
      assert "" + PrintFields(items) == PrintFields(items);
    }
  }

  // --- The routes -------------------------------------------------------------------------------------

  const SERVICE_ROUTES: set<(HttpMethod, bytes)> := {
    (POST, "/api/login"), (POST, "/api/register"), (GET, "/api/users"), (GET, "/api/user")}

  predicate Is(got: Received, code: nat, contentType: bytes, body: bytes) {
    && got.code == Number(code)
    && "Content-Type" in got.headers && got.headers["Content-Type"] == contentType
    && got.body == body
  }

  predicate IsJson(got: Received, code: nat, json: bytes) {
    Is(got, code, "application/json; charset=utf-8", json)
  }

  predicate IsPage(got: Received, code: nat, title: bytes, text: bytes) {
    Is(got, code, "text/html; charset=utf-8",
       "<html><head><title>Error</title></head><body>" + "<h1>" + ToString(code) + " " + title + "</h1>" + text
       + "</body></html>")
  }

  predicate IsFile(got: Received, ext: bytes, content: bytes) {
    && (ext in TEXT_TYPES ==> Is(got, 200, TEXT_TYPES[ext], content))
    && (ext in MEDIA_TYPES ==> Is(got, 200, MEDIA_TYPES[ext], content))
    && (ext !in TEXT_TYPES && ext !in MEDIA_TYPES ==> Is(got, 200, "application/octet-stream", content))
  }

  /** What the API answers. */
  predicate FromApi(path: bytes, verb: HttpMethod, svc: Services, got: Received) {
    if path == "/api/health" then IsJson(got, 200, "{\"status\":\"ok\",\"version\":\"2.0\"}")
    else if path == "/api/info" then
      IsJson(got, 200, "{\"server\":\"Bre WebServer\",\"version\":\"2.0\",\"session\":\"" + ToString(svc.id) + "\"}")
    else if (verb, path) in SERVICE_ROUTES then
      svc.api.ApiJson? && IsJson(got, Code(svc.api.status), svc.api.json)
    else IsPage(got, 404, "Not Found", "<p>" + "API endpoint not found" + "</p>")
  }

  /** What is answered for what the file system has. */
  predicate FromFile(file: FileReply, got: Received) {
    match file
    case NoCanonicalPath => IsPage(got, 404, "Not Found", "")
    case OutsideRoot => IsPage(got, 403, "Forbidden", "")
    case Regular(_, None) => IsPage(got, 500, "Internal Server Error", "")
    case Regular(ext, Some(content)) => IsFile(got, ext, content)
    case Missing => IsPage(got, 404, "Not Found", "")
    case FileThrows => false
  }

  /** The root stands for its index page; any other path names a file without its first byte. */
  function FileName(path: bytes): bytes {
    if path == "/" then "index.html" else if path == "" then "" else path[1..]
  }

  predicate Expected(r: Request, svc: Services, got: Received) {
    if "/api/" <= r.path then FromApi(r.path, r.verb, svc, got) else FromFile(svc.file(FileName(r.path)), got)
  }

  lemma ServiceRoutesAgree(path: bytes, verb: HttpMethod)
    ensures IsServiceRoute(path, verb) <==> (verb, path) in SERVICE_ROUTES
  {}

  /** The client sees the status, the type and the body of a response, whatever is added about the connection. */
  predicate Shows(got: Received, r: Response) {
    CONTENT_TYPE in r.headers && Is(got, Code(r.status), r.headers[CONTENT_TYPE], r.body)
  }

  lemma AnswerShowsReply(x: Exchange)
    requires Respond(x.request, x.services).Reply?
    ensures Shows(AnswerIn(x), ReplyOf(x))
  {
    FlagOfReply(x);
    OwnHeaders(ReplyOf(x));
  }

  lemma ReplyFromApi(x: Exchange)
    requires Respond(x.request, x.services).Reply? && IsApi(Route(x.request.path))
    ensures var reply := RespondApi(Route(x.request.path), x.request.verb, x.services);
            reply.Reply? && ReplyOf(x) == reply.response.(keepAlive := WantsKeepAlive(x.request))
  {}

  lemma ApiIsExpected(x: Exchange)
    requires Respond(x.request, x.services).Reply? && "/api/" <= x.request.path
    ensures FromApi(x.request.path, x.request.verb, x.services, AnswerIn(x))
  {
    var path, verb := x.request.path, x.request.verb;
    ReplyFromApi(x);
    assert Route(path) == path;
    AnswerShowsReply(x);
    if path == "/api/health" || path == "/api/info" {
      FixedRoute(path, verb, x.services, AnswerIn(x));
    } else {
      ServiceRoutesAgree(path, verb);
      if !IsServiceRoute(path, verb) {
        UnknownRoute(path, verb, x.services, AnswerIn(x));
      }
    }
  }

  lemma FixedRoute(path: bytes, verb: HttpMethod, svc: Services, got: Received)
    requires path == "/api/health" || path == "/api/info"
    requires RespondApi(path, verb, svc).Reply? && Shows(got, RespondApi(path, verb, svc).response)
    ensures FromApi(path, verb, svc, got)
  {}

  lemma UnknownRoute(path: bytes, verb: HttpMethod, svc: Services, got: Received)
    requires path != "/api/health" && path != "/api/info" && !IsServiceRoute(path, verb)
    requires RespondApi(path, verb, svc).Reply? && Shows(got, RespondApi(path, verb, svc).response)
    ensures IsPage(got, 404, "Not Found", "<p>" + "API endpoint not found" + "</p>")
  {}

  /** Which file the code looks for. */
  lemma FileOfRoute(path: bytes)
    ensures IsApi(Route(path)) <==> "/api/" <= path
    ensures Route(path) == "" <==> path == ""
    ensures path != "" ==> Route(path)[1..] == FileName(path)
  {
    assert "/index.html"[1] != "/api/"[1];
    assert "/index.html"[1..] == "index.html";
  }

  lemma ReplyFromFile(x: Exchange, file: FileReply)
    requires Respond(x.request, x.services).Reply? && !IsApi(Route(x.request.path))
    requires file == x.services.file(Route(x.request.path)[1..])
    ensures RespondFile(file).Reply? && RespondFile(file).response == ReplyOf(x).(keepAlive := false)
  {}

  lemma FileIsExpected(x: Exchange)
    requires Respond(x.request, x.services).Reply? && !("/api/" <= x.request.path)
    ensures FromFile(x.services.file(FileName(x.request.path)), AnswerIn(x))
  {
    FileOfRoute(x.request.path);
    var file := x.services.file(FileName(x.request.path));
    ReplyFromFile(x, file);
    AnswerShowsReply(x);
    FileResponseIsExpected(file, AnswerIn(x));
  }

  lemma FileResponseIsExpected(file: FileReply, got: Received)
    requires RespondFile(file).Reply? && Shows(got, RespondFile(file).response)
    ensures FromFile(file, got)
  {
    match file
    case NoCanonicalPath => ErrorIsPage(got, NOT_FOUND, 404, "Not Found");
    case OutsideRoot => ErrorIsPage(got, FORBIDDEN, 403, "Forbidden");
    case Regular(ext, content) =>
      if content.Some? {
        TypeIsExpected(got, ext, content.value);
      } else {
        ErrorIsPage(got, INTERNAL_SERVER_ERROR, 500, "Internal Server Error");
      }
    case Missing => ErrorIsPage(got, NOT_FOUND, 404, "Not Found");
  }

  lemma ErrorIsPage(got: Received, status: HttpStatus, code: nat, title: bytes)
    requires Code(status) == code && StatusMessage(status) == title && Shows(got, ErrorResponse(status, ""))
    ensures IsPage(got, code, title, "")
  {}

  lemma TypeIsExpected(got: Received, ext: bytes, content: bytes)
    requires Is(got, 200, ContentTypeOf(ext), content)
    ensures IsFile(got, ext, content)
  {
    if ext in TEXT_TYPES {
      TextTypes(ext);
    }
    if ext in MEDIA_TYPES {
      MediaTypes(ext);
    }
    if ext !in TEXT_TYPES && ext !in MEDIA_TYPES {
      OtherTypes(ext);
    }
  }

  lemma TextTypes(ext: bytes)
    requires ext in TEXT_TYPES
    ensures ContentTypeOf(ext) == TEXT_TYPES[ext]
  {}

  lemma MediaTypes(ext: bytes)
    requires ext in MEDIA_TYPES
    ensures ContentTypeOf(ext) == MEDIA_TYPES[ext]
  {}

  lemma OtherTypes(ext: bytes)
    requires ext !in TEXT_TYPES && ext !in MEDIA_TYPES
    ensures ContentTypeOf(ext) == "application/octet-stream"
  {}

  /** Whatever the route, the answer is the expected one. */
  lemma AnswerIsExpected(x: Exchange)
    requires Respond(x.request, x.services).Reply?
    ensures Expected(x.request, x.services, AnswerIn(x))
  {
    if "/api/" <= x.request.path {
      ApiIsExpected(x);
    } else {
      FileIsExpected(x);
    }
  }

  /** In every run, each answer that the client reads is the expected one to the request in its place. */
  lemma EveryAnswerIsExpected(es: seq<Event>, w: World, i: nat)
    requires Path(START, es, w) && i < |Replies(w.wire)|
    ensures i < |w.exchanges| <= |w.handled|
    ensures Expected(w.handled[i], w.exchanges[i].services, Replies(w.wire)[i])
  {
    EndToEnd(es, w);
    Reachable(es, w);
    assert ValidExchange(w.exchanges[i]);
    AnswerIsExpected(w.exchanges[i]);
    assert Replies(w.wire)[i] == Answers(w.exchanges)[i];
  }

  /** Answering raises an exception exactly when a service or the file system throws, or the path is empty. */
  lemma RaisesExactly(r: Request, svc: Services)
    ensures Respond(r, svc).Raised? <==>
            if "/api/" <= r.path then (r.verb, r.path) in SERVICE_ROUTES && svc.api.ApiThrows?
            else r.path == "" || svc.file(FileName(r.path)).FileThrows?
  {
    FileOfRoute(r.path);
    ServiceRoutesAgree(r.path, r.verb);
    if "/api/" <= r.path {
      ApiRaisesExactly(r, svc);
    }
  }

  lemma ApiRaisesExactly(r: Request, svc: Services)
    requires IsApi(Route(r.path))
    ensures Respond(r, svc).Raised? <==> IsServiceRoute(r.path, r.verb) && svc.api.ApiThrows?
  {}
}
