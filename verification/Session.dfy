/** One TCP connection, src/server/Session.cpp: its state, what each handler does to it, and the
    class whose methods update it in place. All handlers of a session run on one io_context, so
    each runs to its end before the next. */
module SessionModel {
  import opened Bytes
  import opened Decimal
  import opened BreBuffer
  import opened RequestParser
  import opened Grammar
  import opened ResponseBuilder

  // The asynchronous operations as the io_context sees them. A completion that has been queued
  // runs its handler later, whatever happens in between.
  datatype ReadOp = NoRead | ReadInFlight | ReadOk(data: bytes) | ReadErr
  datatype WriteOp = NoWrite | WriteInFlight | WriteOk | WriteErr
  datatype TimerWait = NoWait | Waiting | Expired | Aborted

  /** The fields of a session and the operations that keep it alive.
      `crashed`: an exception has escaped from a handler, and nothing runs after it. */
  datatype State = State(
    readBuffer: bytes,
    writeBuffer: bytes,
    request: Request,
    keepAlive: bool,
    closed: bool,
    crashed: bool,
    read: ReadOp,
    write: WriteOp,
    timer: TimerWait)

  const NEW_SESSION := State("", "", FRESH, false, false, false, NoRead, NoWrite, NoWait)

  // What the code behind the routes and the file system answer; it is not part of this model.
  datatype ApiReply = ApiJson(status: HttpStatus, json: bytes) | ApiThrows
  datatype FileReply =
    | NoCanonicalPath | OutsideRoot | Regular(ext: bytes, content: Option<bytes>) | Missing | FileThrows

  /** `id` is the number of the session, which the info route prints; `file` what the file system has
      under a path relative to the resource directory. */
  datatype Services = Services(id: nat, api: ApiReply, file: bytes -> FileReply)

  /** How a request is answered: a response handed to `Build`, early if on the path that returns
      before `SetKeepAlive`; or an exception. */
  datatype Answer = Reply(response: Response, early: bool) | Raised

  predicate WantsKeepAlive(r: Request) {
    HeaderOf(r, CONNECTION) == "keep-alive" || HeaderOf(r, CONNECTION) == "Keep-Alive"
  }

  function Route(path: bytes): bytes {
    if path == "/" then "/index.html" else path
  }

  predicate IsApi(path: bytes) {
    "/api/" <= path
  }

  /** The routes that call a service, each for one method. */
  predicate IsServiceRoute(path: bytes, verb: HttpMethod) {
    || (verb.POST? && (path == "/api/login" || path == "/api/register"))
    || (verb.GET? && (path == "/api/users" || path == "/api/user"))
  }

  const HEALTH: bytes := "{\"status\":\"ok\",\"version\":\"2.0\"}"
  const NO_ROUTE: bytes := "API endpoint not found"

  function Info(id: nat): bytes {
    "{\"server\":\"Bre WebServer\",\"version\":\"2.0\",\"session\":\"" + ToString(id) + "\"}"
  }

  function RespondApi(path: bytes, verb: HttpMethod, svc: Services): Answer {
    if path == "/api/health" then Reply(JsonResponse(HEALTH), false)
    else if path == "/api/info" then Reply(JsonResponse(Info(svc.id)), false)
    else if IsServiceRoute(path, verb) then
      match svc.api
      case ApiJson(status, json) => Reply(JsonResponse(json).(status := status), false)
      case ApiThrows => Raised
    else Reply(ErrorResponse(NOT_FOUND, NO_ROUTE), false)
  }

  function RespondFile(file: FileReply): Answer {
    match file
    case NoCanonicalPath => Reply(ErrorResponse(NOT_FOUND, ""), true)
    case OutsideRoot => Reply(ErrorResponse(FORBIDDEN, ""), false)
    case Regular(ext, Some(content)) =>
      Reply(Response(OK, map[CONTENT_TYPE := ContentTypeOf(ext)], content, false), false)
    case Regular(_, None) => Reply(ErrorResponse(INTERNAL_SERVER_ERROR, ""), false)
    case Missing => Reply(ErrorResponse(NOT_FOUND, ""), false)
    case FileThrows => Raised
  }

  /** The early return leaves the flag as `MakeErrorResponse` set it; elsewhere it is set to what the
      request wants. */
  function Respond(r: Request, svc: Services): Answer {
    var path := Route(r.path);
    var answer := if IsApi(path) then RespondApi(path, r.verb, svc)
                  else if path == "" then Raised // path.substr(1) throws out_of_range
                  else RespondFile(svc.file(path[1..]));
    if answer.Reply? && !answer.early
    then answer.(response := answer.response.(keepAlive := WantsKeepAlive(r))) else answer
  }

  /** `items` is an order in which `Build` may iterate the headers of the answer. */
  ghost predicate ItemsFit(r: Request, svc: Services, items: seq<Field>) {
    match Respond(r, svc)
    case Reply(response, _) => Enumerates(items, Completed(response).headers)
    case Raised => true
  }

  // --- What each handler does ------------------------------------------------------------------

  function CancelWait(t: TimerWait): TimerWait {
    if t.Waiting? then Aborted else t
  }

  /** `Stop`: pending operations are cancelled, but completions already queued stay queued. */
  function Stopped(s: State): State {
    if s.closed then s
    else
      s.(closed := true, timer := CancelWait(s.timer),
         read := if s.read.ReadInFlight? then ReadErr else s.read,
         write := if s.write.WriteInFlight? then WriteErr else s.write)
  }

  /** An operation started on a closed socket completes with an error. */
  function Reading(s: State): State {
    s.(read := if s.closed then ReadErr else ReadInFlight)
  }

  function Writing(s: State): State {
    s.(write := if s.closed then WriteErr else WriteInFlight)
  }

  function Started(s: State): State {
    Reading(s.(timer := Waiting))
  }

  function Handled(s: State, svc: Services, items: seq<Field>): State {
    var s1 := s.(keepAlive := WantsKeepAlive(s.request));
    match Respond(s.request, svc)
    case Raised => s1.(crashed := true)
    case Reply(response, _) => Writing(s1.(writeBuffer := s1.writeBuffer + Rendered(Completed(response), items)))
  }

  /** The parse made by the read handler. */
  function ParsedOnRead(s: State): Parsed
    requires s.read.ReadOk?
  {
    ParseBytes(s.request, s.readBuffer + s.read.data)
  }

  function AfterRead(s: State, svc: Services, items: seq<Field>): State
    requires s.read.ReadOk? || s.read.ReadErr?
  {
    if s.read.ReadErr? then Stopped(s.(read := NoRead))
    else
      var p := ParsedOnRead(s);
      var s1 := s.(read := NoRead, timer := CancelWait(s.timer), request := p.request, readBuffer := p.rest);
      match p.outcome
      case Finished => Handled(s1, svc, items)
      case Unfinished => Reading(s1)
      case Threw => s1.(crashed := true)
  }

  function AfterWrite(s: State): State
    requires s.write.WriteOk? || s.write.WriteErr?
  {
    var s1 := s.(write := NoWrite);
    if s.write.WriteErr? then Stopped(s1)
    else
      var s2 := s1.(writeBuffer := "");
      if s2.keepAlive && !s2.closed then Reading(s2.(request := FRESH)) else Stopped(s2)
  }

  function AfterTimer(s: State): State
    requires s.timer.Expired? || s.timer.Aborted?
  {
    var s1 := s.(timer := NoWait);
    if s.timer.Expired? && !s1.closed then Stopped(s1) else s1
  }

  class Session {
    const readBuffer: Buffer
    const writeBuffer: Buffer
    const request: HttpRequest
    var keepAlive: bool
    var closed: bool
    var crashed: bool
    var read: ReadOp
    var write: WriteOp
    var timer: TimerWait

    ghost predicate Valid() {
      readBuffer != writeBuffer
    }

    function View(): State
      reads this, readBuffer, writeBuffer, request
    {
      State(readBuffer.readable, writeBuffer.readable, request.Value(), keepAlive, closed, crashed, read, write, timer)
    }

    constructor ()
      ensures Valid() && View() == NEW_SESSION
      ensures fresh(readBuffer) && fresh(writeBuffer) && fresh(request)
    {
      var input := new Buffer();
      var output := new Buffer();
      var parser := new HttpRequest();
      readBuffer, writeBuffer, request := input, output, parser;
      keepAlive, closed, crashed := false, false, false;
      read, write, timer := NoRead, NoWrite, NoWait;
    }

    method Start()
      requires Valid()
      modifies this
      ensures View() == Started(old(View()))
    {
      timer := Waiting;
      DoRead();
    }

    method Stop()
      requires Valid()
      modifies this
      ensures View() == Stopped(old(View()))
    {
      if closed {
        return;
      }
      closed := true;
      timer := CancelWait(timer);
      if read == ReadInFlight {
        read := ReadErr;
      }
      if write == WriteInFlight {
        write := WriteErr;
      }
    }

    method DoRead()
      requires Valid()
      modifies this
      ensures View() == Reading(old(View()))
    {
      read := if closed then ReadErr else ReadInFlight;
    }

    method DoWrite()
      requires Valid()
      modifies this
      ensures View() == Writing(old(View()))
    {
      write := if closed then WriteErr else WriteInFlight;
    }

    /** The handler given to `async_read_some`. */
    method OnRead(svc: Services) returns (ghost items: seq<Field>)
      requires Valid() && (read.ReadOk? || read.ReadErr?)
      modifies this, readBuffer, writeBuffer, request
      ensures View() == AfterRead(old(View()), svc, items)
      ensures old(read.ReadOk?) && ParsedOnRead(old(View())).outcome.Finished? ==>
                ItemsFit(ParsedOnRead(old(View())).request, svc, items)
    {
      items := [];
      var completion := read;
      read := NoRead;
      if completion.ReadErr? {
        Stop();
        return;
      }
      readBuffer.Append(completion.data);
      timer := CancelWait(timer); // ResetTimer: expires_after cancels the wait and starts no other
      var outcome, _ := request.Parse(readBuffer);
      match outcome
      case Finished => items := HandleRequest(svc);
      case Unfinished => DoRead();
      case Threw => crashed := true;
    }

    /** The handler given to `async_write`. */
    method OnWrite()
      requires Valid() && (write.WriteOk? || write.WriteErr?)
      modifies this, writeBuffer, request
      ensures View() == AfterWrite(old(View()))
    {
      var completion := write;
      write := NoWrite;
      if completion.WriteErr? {
        Stop();
        return;
      }
      writeBuffer.RetrieveAll();
      if keepAlive && !closed {
        request.Reset();
        DoRead();
      } else {
        Stop();
      }
    }

    /** The handler given to the timer's `async_wait`, with `HandleTimeout`. */
    method OnTimer()
      requires Valid() && (timer.Expired? || timer.Aborted?)
      modifies this
      ensures View() == AfterTimer(old(View()))
    {
      var completion := timer;
      timer := NoWait;
      if completion.Expired? {
        if closed {
          return;
        }
        Stop();
      }
    }

    method HandleRequest(svc: Services) returns (ghost items: seq<Field>)
      requires Valid()
      modifies this, writeBuffer
      ensures View() == Handled(old(View()), svc, items)
      ensures ItemsFit(old(request.Value()), svc, items)
    {
      items := [];
      var connection := request.GetHeader(CONNECTION);
      keepAlive := connection == "keep-alive" || connection == "Keep-Alive";
      var response, early := ChooseResponse(svc);
      if response == null {
        crashed := true;
        return;
      }
      items := response.Build(writeBuffer);
      DoWrite();
    }

    /** The routing part of `HandleRequest`: a response ready for `Build`, or null for an exception. */
    method ChooseResponse(svc: Services) returns (response: HttpResponse?, early: bool)
      requires keepAlive == WantsKeepAlive(request.Value())
      ensures response != null ==> fresh(response) && Respond(request.Value(), svc) == Reply(response.Value(), early)
      ensures response == null ==> Respond(request.Value(), svc) == Raised
    {
      response, early := null, false;
      var path := Route(request.path);
      if IsApi(path) {
        response := CallApi(path, svc);
      } else if path != "" {
        response, early := ServeFile(svc.file(path[1..]));
      }
      if response != null && !early {
        response.SetKeepAlive(keepAlive);
      }
    }

    /** The API routes: a response, or null for an exception. */
    method CallApi(path: bytes, svc: Services) returns (response: HttpResponse?)
      ensures response == null ==> RespondApi(path, request.verb, svc) == Raised
      ensures response != null ==>
                fresh(response) && RespondApi(path, request.verb, svc) == Reply(response.Value(), false)
    {
      if path == "/api/health" {
        response := HttpResponse.MakeJsonResponse(HEALTH);
      } else if path == "/api/info" {
        response := HttpResponse.MakeJsonResponse(Info(svc.id));
      } else if IsServiceRoute(path, request.verb) {
        match svc.api
        case ApiJson(status, json) =>
          response := HttpResponse.MakeJsonResponse(json);
          response.SetStatus(status);
        case ApiThrows =>
          response := null;
      } else {
        response := HttpResponse.MakeErrorResponse(NOT_FOUND, NO_ROUTE);
      }
    }

    /** Static files: a response, or null for an exception. `early` marks the path that skips
        the second `SetKeepAlive`. */
    method ServeFile(reply: FileReply) returns (response: HttpResponse?, early: bool)
      ensures response == null ==> RespondFile(reply) == Raised
      ensures response != null ==>
                fresh(response) && RespondFile(reply) == Reply(response.Value().(keepAlive := false), early)
      ensures response != null && early ==> !response.keepAlive
    {
      early := false;
      match reply
      case NoCanonicalPath =>
        response := HttpResponse.MakeErrorResponse(NOT_FOUND, "");
        early := true;
      case OutsideRoot =>
        response := HttpResponse.MakeErrorResponse(FORBIDDEN, "");
      case Regular(ext, content) =>
        response := new HttpResponse();
        response.SetKeepAlive(keepAlive);
        var ok := response.LoadFile(ext, content);
        if ok {
          response.SetStatus(OK);
        } else {
          response := HttpResponse.MakeErrorResponse(INTERNAL_SERVER_ERROR, "");
        }
      case Missing =>
        response := HttpResponse.MakeErrorResponse(NOT_FOUND, "");
      case FileThrows =>
        response := null;
    }
  }
}
