/** How a session ends, what its answers announce about that, what its timer guards against, and
    how far it lags behind a client that does not wait. */
module SessionLifetime {
  import opened Bytes
  import opened Decimal
  import opened RequestParser
  import opened Grammar
  import opened ResponseBuilder
  import opened ResponseRoundTrip
  import opened SessionModel
  import opened SessionRuns
  import opened SessionWire

  // --- Shutdown terminates ------------------------------------------------------------------------

  /** How many read and write handlers can still run once the session is closed. */
  function IoLeft(s: State): nat {
    (match s.read case ReadOk(_) => 2 case ReadErr => 1 case _ => 0)
    + (match s.write case WriteOk => 1 case WriteErr => 1 case _ => 0)
  }

  function TimerLeft(s: State): nat {
    if s.timer.Expired? || s.timer.Aborted? then 1 else 0
  }

  function IoHandlers(es: seq<Event>): nat {
    if es == [] then 0 else (if es[0].ReadHandler? || es[0].WriteHandler? then 1 else 0) + IoHandlers(es[1..])
  }

  function TimerHandlers(es: seq<Event>): nat {
    if es == [] then 0 else (if es[0].TimerHandler? then 1 else 0) + TimerHandlers(es[1..])
  }

  lemma ClosedStep(w: World, e: Event)
    requires Shape(w.s) && w.s.closed && Enabled(w, e)
    ensures Next(w, e).s.closed && Shape(Next(w, e).s)
    ensures e.ReadHandler? || e.WriteHandler? || e.TimerHandler? || e.StopCall?
    ensures (if e.ReadHandler? || e.WriteHandler? then 1 else 0) + IoLeft(Next(w, e).s) <= IoLeft(w.s)
    ensures (if e.TimerHandler? then 1 else 0) + TimerLeft(Next(w, e).s) == TimerLeft(w.s)
    ensures e.StopCall? ==> Next(w, e) == w
  {}

  /** Closed is for ever, and from any closed state, even with a successful completion still queued,
      at most two more read or write handlers and one timer handler run. No network event follows. */
  lemma {:induction false} ShutdownTerminates(w: World, es: seq<Event>, end: World)
    requires Shape(w.s) && w.s.closed && Path(w, es, end)
    ensures end.s.closed
    ensures IoHandlers(es) + IoLeft(end.s) <= IoLeft(w.s) <= 2
    ensures TimerHandlers(es) + TimerLeft(end.s) == TimerLeft(w.s) <= 1
    ensures forall e :: e in es ==> e.ReadHandler? || e.WriteHandler? || e.TimerHandler? || e.StopCall?
    decreases |es|
  {
    if es != [] {
      ClosedStep(w, es[0]);
      ShutdownTerminates(Next(w, es[0]), es[1..], end);
      assert forall e :: e in es ==> e == es[0] || e in es[1..];
    }
  }

  /** Stop closes an open session, cancels what is in flight, and a second Stop changes nothing. */
  lemma StopTakesEffectOnce(w: World)
    requires !w.s.crashed
    ensures var w1 := Next(w, StopCall);
            Enabled(w1, StopCall) && Next(w1, StopCall) == w1
            && (Shape(w.s) ==>
                  w1.s.closed && !w1.s.read.ReadInFlight? && !w1.s.write.WriteInFlight? && !w1.s.timer.Waiting?)
  {}

  /** No handler left means no operation holds the session; while one is left, it can run. */
  lemma ClosedSessionIsReleased(w: World)
    requires Shape(w.s) && w.s.closed && !w.s.crashed
    ensures IoLeft(w.s) + TimerLeft(w.s) == 0 <==> w.s.read.NoRead? && w.s.write.NoWrite? && w.s.timer.NoWait?
    ensures IoLeft(w.s) + TimerLeft(w.s) > 0 ==> exists e :: Enabled(w, e) && !e.StopCall?
  {
    if w.s.write.WriteOk? || w.s.write.WriteErr? {
      assert Enabled(w, WriteHandler);
    } else if w.s.timer.Expired? || w.s.timer.Aborted? {
      assert Enabled(w, TimerHandler);
    } else if w.s.read.ReadErr? {
      assert Enabled(w, ReadHandler(Services(0, ApiThrows, _ => FileThrows), []));
    } else if w.s.read.ReadOk? {
      var r := ParsedOnRead(w.s).request;
      var svc := QUIET;
      var items := EnumerationExists(Completed(ReplyTo(r, svc)).headers);
      EmptyAnswerIsValid(r, svc, items);
      assert Enabled(w, ReadHandler(svc, items));
    }
  }

  const QUIET := Services(0, ApiJson(OK, ""), _ => Regular("", Some("")))

  lemma EmptyAnswerIsValid(r: Request, svc: Services, items: seq<Field>)
    requires svc == QUIET && Enumerates(items, Completed(ReplyTo(r, svc)).headers)
    ensures Respond(r, svc).Reply? ==> ValidExchange(Exchange(r, svc, items))
  {
    assert ToString(0) == "0" && |Info(0)| < 1000;
    NotFoundPageIsShort(NO_ROUTE);
  }

  lemma NotFoundPageIsShort(message: bytes)
    requires |message| < 1000
    ensures |ErrorPage(NOT_FOUND, message)| < 2000
  {
    assert ToString(404) == ToString(40) + "4" && ToString(40) == "40";
  }

  /** Every header map can be iterated. */
  lemma EnumerationExists(headers: map<bytes, bytes>) returns (items: seq<Field>)
    ensures Enumerates(items, headers)
  {
    var todo := headers.Keys;
    items := [];
    while todo != {}
      invariant Listed(items, headers, todo)
      decreases |todo|
    {
      var key :| key in todo;
      ListOneMore(items, headers, todo, key);
      items := items + [Field(key, 1, headers[key])];
      todo := todo - {key};
    }
    assert headers - todo == headers;
  }

  // --- Announced persistence ------------------------------------------------------------------------

  /** An HTTP/1.1 answer announces persistence unless it says `Connection: close` (RFC 9112, section 9.3). */
  predicate Announces(answer: Received) {
    !("Connection" in answer.headers && answer.headers["Connection"] == "close")
  }

  /** The answer was built on the path that returns before `SetKeepAlive`. */
  predicate EarlyReturn(x: Exchange) {
    var path := x.request.path;
    !("/api/" <= path) && path != "" && x.services.file(Route(path)[1..]).NoCanonicalPath?
  }

  /** What every answer says about the connection, for every order of its headers: `keep-alive`, with
      the limits, exactly when the request has one of two header values and the early return was not
      taken, and `close`, without limits, in every other case. */
  lemma ConnectionHeaderExactly(x: Exchange)
    requires Respond(x.request, x.services).Reply?
    ensures var asked, headers := x.request.headers, AnswerIn(x).headers;
            var keeps := "Connection" in asked
                         && (asked["Connection"] == "keep-alive" || asked["Connection"] == "Keep-Alive")
                         && !EarlyReturn(x);
            && "Connection" in headers && headers["Connection"] == (if keeps then "keep-alive" else "close")
            && ("Keep-Alive" in headers <==> keeps)
            && (keeps ==> headers["Keep-Alive"] == "timeout=5, max=100")
            && "Content-Length" in headers && headers["Content-Length"] == ToString(|AnswerIn(x).body|)
  {
    FlagOfReply(x);
    OwnHeaders(ReplyOf(x));
  }

  lemma FlagOfReply(x: Exchange)
    requires Respond(x.request, x.services).Reply?
    ensures ReplyOf(x).headers.Keys == {CONTENT_TYPE}
    ensures ReplyOf(x).keepAlive <==> WantsKeepAlive(x.request) && !EarlyReturn(x)
  {
    var path := Route(x.request.path);
    assert "/index.html"[1] != "/api/"[1];
    if IsApi(path) {
      TypedApiReply(path, x.request.verb, x.services);
    } else {
      TypedFileReply(x, x.services.file(path[1..]));
    }
  }

  lemma TypedApiReply(path: bytes, verb: HttpMethod, svc: Services)
    requires RespondApi(path, verb, svc).Reply?
    ensures RespondApi(path, verb, svc).response.headers.Keys == {CONTENT_TYPE}
  {}

  lemma TypedFileReply(x: Exchange, reply: FileReply)
    requires Respond(x.request, x.services).Reply? && !IsApi(Route(x.request.path))
    requires reply == x.services.file(Route(x.request.path)[1..])
    ensures ReplyOf(x).headers.Keys == {CONTENT_TYPE}
    ensures ReplyOf(x).keepAlive <==> WantsKeepAlive(x.request) && !reply.NoCanonicalPath?
  {}

  lemma OwnHeaders(r: Response)
    requires r.headers.Keys == {CONTENT_TYPE}
    ensures var headers := Completed(r).headers;
            && headers.Keys == {CONTENT_TYPE, "Connection", "Content-Length"}
                               + (if r.keepAlive then {"Keep-Alive"} else {})
            && headers[CONTENT_TYPE] == r.headers[CONTENT_TYPE]
            && headers["Connection"] == (if r.keepAlive then "keep-alive" else "close")
            && (r.keepAlive ==> headers["Keep-Alive"] == "timeout=5, max=100")
            && headers["Content-Length"] == ToString(|r.body|)
  {
    assert CONTENT_TYPE[8] == 'T' && "Content-Length"[8] == 'L';
  }

  /** Which connections persist: after a successful write an open session reads on if and only if the
      request has a header named exactly `Connection` with the value `keep-alive` or `Keep-Alive`, and
      closes otherwise, also after a request without that header. */
  lemma PersistenceExactly(es: seq<Event>, w: World)
    requires Path(START, es, w) && w.s.write.WriteOk? && !w.s.closed && !w.s.crashed
    ensures w.exchanges != []
    ensures var asked, s := w.exchanges[|w.exchanges| - 1].request.headers, Next(w, WriteHandler).s;
            && (s.read.ReadInFlight? <==>
                  "Connection" in asked && (asked["Connection"] == "keep-alive" || asked["Connection"] == "Keep-Alive"))
            && (s.closed <==> !s.read.ReadInFlight?)
  {
    LastAnswer(es, w);
    ReadsOn(w.s);
  }

  /** The last answer the client reads, whatever the order of its headers, announces truthfully
      whether the session reads on, if and only if it was not the early 404 to a request that asked
      for persistence. */
  lemma AnnouncementIsTrueExactly(es: seq<Event>, w: World)
    requires Path(START, es, w) && w.s.write.WriteOk? && !w.s.closed && !w.s.crashed
    ensures w.exchanges != [] && |Replies(w.wire)| == |w.exchanges|
    ensures var last := |w.exchanges| - 1;
            var readsOn := Next(w, WriteHandler).s.read.ReadInFlight?;
            (Announces(Replies(w.wire)[last]) <==> readsOn) <==> !(EarlyReturn(w.exchanges[last]) && readsOn)
  {
    PersistenceExactly(es, w);
    LastAnswer(es, w);
    ConnectionHeaderExactly(w.exchanges[|w.exchanges| - 1]);
    EndToEnd(es, w);
  }

  lemma LastAnswer(es: seq<Event>, w: World)
    requires Path(START, es, w) && w.s.write.WriteOk?
    ensures w.exchanges != [] && w.s.read.NoRead?
    ensures var x := w.exchanges[|w.exchanges| - 1];
            Respond(x.request, x.services).Reply? && w.s.keepAlive == WantsKeepAlive(x.request)
  {
    WireReachable(es, w);
    assert ValidExchange(w.exchanges[|w.exchanges| - 1]);
  }

  lemma ReadsOn(s: State)
    requires s.write.WriteOk? && s.read.NoRead? && !s.closed
    ensures AfterWrite(s).read.ReadInFlight? <==> s.keepAlive
    ensures AfterWrite(s).closed <==> !s.keepAlive
  {}

  // --- The timer ----------------------------------------------------------------------------------

  /** In an open session the timer is armed exactly until the first successful read or its expiry. */
  lemma TimerArmedExactly(es: seq<Event>, w: World)
    requires Path(START, es, w) && !w.s.closed && !w.s.crashed
    ensures w.s.timer.Waiting? <==> w.readCount == 0 && !w.s.timer.Expired?
  {
    Reachable(es, w);
  }

  /** Once a read has succeeded the timer never expires again, however long the client stays silent. */
  lemma {:induction false} NoTimeoutAfterFirstRead(w: World, es: seq<Event>, end: World)
    requires Shape(w.s) && TimerSpent(w) && w.readCount > 0 && Path(w, es, end)
    ensures TimerExpires !in es && !end.s.timer.Waiting?
    decreases |es|
  {
    if es != [] {
      ShapeKept(w, es[0]);
      NoTimeoutAfterFirstRead(Next(w, es[0]), es[1..], end);
      assert es == [es[0]] + es[1..];
    }
  }

  /** Before that, a client that sends nothing is disconnected: the run can always go on with the
      timer's expiry and its handler, and then the session is closed. */
  lemma SilentClientIsDropped(es: seq<Event>, w: World) returns (es1: seq<Event>, w1: World)
    requires Path(START, es, w) && !w.s.closed && !w.s.crashed && w.readCount == 0
    ensures Path(START, es1, w1) && w1.s.closed && w1.readCount == 0 && w1.handled == []
  {
    Reachable(es, w);
    es1, w1 := es, w;
    OneRequestPerRead(es, w);
    if w.s.timer.Waiting? {
      es1, w1 := Extend(es1, w1, TimerExpires);
    }
    es1, w1 := Extend(es1, w1, TimerHandler);
  }

  /** At most one request is handled per read, so of several that arrive in one read all but one wait
      for another. */
  lemma OneRequestPerRead(es: seq<Event>, w: World)
    requires Path(START, es, w)
    ensures |w.handled| <= w.readCount
  {
    HandledNeedsRead(START, es, w);
  }

  lemma {:induction false} HandledNeedsRead(w: World, es: seq<Event>, end: World)
    requires Path(w, es, end) && |w.handled| <= w.readCount
    ensures |end.handled| <= end.readCount
    decreases |es|
  {
    if es != [] {
      HandledNeedsRead(Next(w, es[0]), es[1..], end);
    }
  }

  // --- A client that waits for each answer ---------------------------------------------------------------

  /** Nothing of the next request arrives together with the end of one. */
  predicate Patient(w: World, e: Event) {
    e.ReadHandler? && w.s.read.ReadOk? && ParsedOnRead(w.s).outcome.Finished? ==> ParsedOnRead(w.s).rest == ""
  }

  ghost predicate PatientPath(w: World, es: seq<Event>, end: World) {
    PathWhere(Patient, w, es, end)
  }

  /** No byte that has been received is left unparsed. */
  predicate UpToDate(w: World) {
    && (!w.s.write.NoWrite? ==> w.s.readBuffer == "")
    && (!w.s.read.NoRead? ==> ParseBytes(FRESH, w.tail) == Parsed(w.s.request, w.s.readBuffer, Unfinished))
  }

  lemma UpToDateKept(w: World, e: Event)
    requires Shape(w.s) && Framing(w) && UpToDate(w) && Enabled(w, e) && Patient(w, e)
    ensures UpToDate(Next(w, e))
  {
    if e.ReadHandler? && w.s.read.ReadOk? {
      InStepParse(w.s, w.tail, w.s.read.data);
    } else if e.WriteHandler? {
      assert ParseBytes(FRESH, "") == Parsed(FRESH, "", Unfinished);
    }
  }

  lemma {:induction false} UpToDateAlong(w: World, es: seq<Event>, end: World)
    requires PatientPath(w, es, end) && Shape(w.s) && TimerSpent(w) && Framing(w) && UpToDate(w)
    ensures Shape(end.s) && Framing(end) && UpToDate(end)
    decreases |es|
  {
    if es != [] {
      ShapeKept(w, es[0]);
      FramingKept(w, es[0]);
      UpToDateKept(w, es[0]);
      UpToDateAlong(Next(w, es[0]), es[1..], end);
    }
  }

  /** With a client that waits for each answer, a session that waits for a read has handled every
      complete request received, whatever the reads within requests. */
  lemma PatientClientIsServed(es: seq<Event>, w: World)
    requires PatientPath(START, es, w) && !w.s.read.NoRead?
    ensures w.handled == Frames(w.received)
  {
    InvAtStart();
    UpToDateAlong(START, es, w);
    FramedFrames(w.received, w.handled, w.tail);
    assert Frames(w.tail) == [];
    assert w.handled + [] == w.handled;
  }

  /** And that client has read back exactly one answer for each complete request it has sent, in order. */
  lemma PatientClientIsAnswered(es: seq<Event>, w: World)
    requires PatientPath(START, es, w) && !w.s.read.NoRead?
    ensures Replies(w.wire) == Answers(w.exchanges) && |w.exchanges| == |Frames(w.received)|
    ensures forall i :: 0 <= i < |w.exchanges| ==> w.exchanges[i].request == Frames(w.received)[i]
  {
    PathWhereIsPath(Patient, START, es, w);
    PatientClientIsServed(es, w);
    Reachable(es, w);
    EndToEnd(es, w);
  }

  // --- How a handler leaves an open session ------------------------------------------------------------

  /** Parsing what was read throws, or answering the request it completes does. */
  predicate Raises(s: State, e: Event)
    requires s.read.ReadOk?
  {
    var p := ParsedOnRead(s);
    p.outcome.Threw? || (p.outcome.Finished? && e.ReadHandler? && Respond(p.request, e.svc).Raised?)
  }

  /** A read or write handler of an open session ends it in one of three ways or leaves one new
      operation in flight: it closes after an error or the last answer, and crashes when the length
      of the body is unreadable or the answer raises. */
  lemma HandlerOutcomeExactly(w: World, e: Event)
    requires Shape(w.s) && !w.s.closed && Enabled(w, e) && (e.ReadHandler? || e.WriteHandler?)
    ensures var s, s1 := w.s, Next(w, e).s;
            && (s1.closed <==> s.read.ReadErr? || s.write.WriteErr? || (s.write.WriteOk? && !s.keepAlive))
            && (s1.crashed <==> s.read.ReadOk? && Raises(s, e))
            && (s1.closed || s1.crashed || (s1.read.ReadInFlight? && s1.write.NoWrite?)
                || (s1.read.NoRead? && s1.write.WriteInFlight?))
  {}

  // --- Runs that show the limits --------------------------------------------------------------------

  /** A run in which one read brings a whole request and more, and the answer is written. */
  lemma FirstRequestRun(m: Message, t: bytes, svc: Services, items: seq<Field>) returns (es: seq<Event>, w: World)
    requires Valid(m) && ValidExchange(Exchange(Meaning(m), svc, items))
    ensures Path(START, es, w) && w.s.write.WriteOk? && !w.s.closed && !w.s.crashed
    ensures w.received == Print(m) + t && w.tail == t && w.s.readBuffer == t
    ensures w.handled == [Meaning(m)] && w.exchanges == [Exchange(Meaning(m), svc, items)]
    ensures w.s.keepAlive == WantsKeepAlive(Meaning(m)) && w.readCount == 1
  {
    es, w := HandledRun(m, t, Exchange(Meaning(m), svc, items));
    es, w := Extend(es, w, WriteProgress(|w.s.writeBuffer|));
    es, w := Extend(es, w, WriteDrains);
  }

  lemma HandledRun(m: Message, t: bytes, x: Exchange) returns (es: seq<Event>, w: World)
    requires Valid(m) && ValidExchange(x) && x.request == Meaning(m)
    ensures Path(START, es, w) && w.s.write.WriteInFlight? && !w.s.closed && !w.s.crashed && w.sent == 0
    ensures w.received == Print(m) + t && w.tail == t && w.s.readBuffer == t
    ensures w.handled == [x.request] && w.exchanges == [x] && w.readCount == 1
    ensures w.s.keepAlive == WantsKeepAlive(x.request)
  {
    RequestRoundTrip(m, t);
    es, w := HandledBytesRun(Print(m) + t, t, x);
  }

  lemma HandledBytesRun(data: bytes, t: bytes, x: Exchange) returns (es: seq<Event>, w: World)
    requires ParseBytes(FRESH, data) == Parsed(x.request, t, Finished) && ValidExchange(x)
    ensures Path(START, es, w) && w.s.write.WriteInFlight? && !w.s.closed && !w.s.crashed && w.sent == 0
    ensures w.received == data && w.tail == t && w.s.readBuffer == t
    ensures w.handled == [x.request] && w.exchanges == [x] && w.readCount == 1
    ensures w.s.keepAlive == WantsKeepAlive(x.request)
  {
    var es0, w0 := ArrivedRun(data);
    RequestHandled(w0, x, t);
    es, w := Extend(es0, w0, ReadHandler(x.services, x.items));
    FromNothing(w, x, data);
  }

  lemma FromNothing(w: World, x: Exchange, data: bytes)
    requires w.received == "" + data && w.handled == [] + [x.request] && w.exchanges == [] + [x]
    ensures w.received == data && w.handled == [x.request] && w.exchanges == [x]
  {}

  lemma ArrivedRun(data: bytes) returns (es: seq<Event>, w: World)
    ensures Path(START, es, w) && w == START.(s := START.s.(read := ReadOk(data)))
    ensures ParsedOnRead(w.s) == ParseBytes(FRESH, data)
  {
    assert Path(START, [], START);
    es, w := Extend([], START, ReadArrives(data));
    assert "" + data == data;
  }

  /** The read handler of an open session meets a complete request and answers it. */
  lemma RequestHandled(w: World, x: Exchange, t: bytes)
    requires w.s.read.ReadOk? && !w.s.closed && !w.s.crashed && w.s.writeBuffer == ""
    requires ParsedOnRead(w.s) == Parsed(x.request, t, Finished) && ValidExchange(x)
    ensures Enabled(w, ReadHandler(x.services, x.items))
    ensures var w1 := Next(w, ReadHandler(x.services, x.items));
            && !w1.s.closed && !w1.s.crashed && w1.s.write.WriteInFlight? && w1.s.read.NoRead?
            && w1.s.readBuffer == t && w1.tail == t && w1.sent == 0
            && w1.s.keepAlive == WantsKeepAlive(x.request)
            && w1.received == w.received + w.s.read.data && w1.readCount == w.readCount + 1
            && w1.handled == w.handled + [x.request] && w1.exchanges == w.exchanges + [x]
  {}

  lemma Extend(es: seq<Event>, w: World, e: Event) returns (es1: seq<Event>, w1: World)
    requires Path(START, es, w) && Enabled(w, e)
    ensures w1 == Next(w, e) && Path(START, es1, w1)
  {
    PathSnoc(START, es, w, e);
    es1, w1 := es + [e], Next(w, e);
  }

  /** A pipelined request lags: for any two requests, the first asking for persistence, there is a run
      in which both have arrived in one read, the first has been answered, and the session waits for
      more bytes without having handled the second. */
  lemma PipelinedRequestLags(m1: Message, m2: Message, svc: Services, items: seq<Field>)
    returns (es: seq<Event>, w: World)
    requires Valid(m1) && Valid(m2) && WantsKeepAlive(Meaning(m1))
    requires ValidExchange(Exchange(Meaning(m1), svc, items))
    ensures Path(START, es, w) && w.s.read.ReadInFlight? && !w.s.closed && w.readCount == 1
    ensures w.received == Print(m1) + Print(m2) && w.s.readBuffer == Print(m2)
    ensures w.handled == [Meaning(m1)] && Frames(w.received) == [Meaning(m1), Meaning(m2)]
  {
    es, w := FirstRequestRun(m1, Print(m2), svc, items);
    es, w := Extend(es, w, WriteHandler);
    FramesOfTwo(m1, m2);
  }

  lemma FramesOfTwo(m1: Message, m2: Message)
    requires Valid(m1) && Valid(m2)
    ensures Frames(Print(m1) + Print(m2)) == [Meaning(m1), Meaning(m2)]
  {
    RequestRoundTrip(m1, Print(m2));
    FramesOfOne(m2);
  }

  lemma FramesOfOne(m: Message)
    requires Valid(m)
    ensures Frames(Print(m)) == [Meaning(m)]
  {
    RequestRoundTrip(m, "");
    assert Print(m) + "" == Print(m);
    assert ParseBytes(FRESH, "") == Parsed(FRESH, "", Unfinished);
  }

  // GET /x HTTP/1.1, with a header that asks for persistence.
  const PERSISTENT_GET := Message(GET, "/x", "HTTP/1.1", [Field(CONNECTION, 1, KEEP_ALIVE)], "")

  lemma PersistentGetIsValid()
    ensures Valid(PERSISTENT_GET) && WantsKeepAlive(Meaning(PERSISTENT_GET))
  {
    assert PrintRequestLine(PERSISTENT_GET) == "GET /x HTTP/1.1";
    NoReturnNoCrlf("GET /x HTTP/1.1");
    AskingForPersistenceIsValid();
    BindOne(Field(CONNECTION, 1, KEEP_ALIVE));
  }

  const PERSISTENT_GET_BYTES: bytes := "GET /x HTTP/1.1\r\n" + ("Connection: keep-alive" + "\r\n") + "\r\n"

  lemma PersistentGetInBytes()
    ensures Print(PERSISTENT_GET) == PERSISTENT_GET_BYTES
  {
    var f := Field(CONNECTION, 1, KEEP_ALIVE);
    PrintOneMore([], CONNECTION, KEEP_ALIVE);
    OneFieldInBytes(f);
    assert PrintRequestLine(PERSISTENT_GET) == "GET /x HTTP/1.1";
    assert "GET /x HTTP/1.1" + CRLF == "GET /x HTTP/1.1\r\n";
    assert "Connection" + ": " + "keep-alive" == "Connection: keep-alive";
  }

  lemma OneFieldInBytes(f: Field)
    requires PrintFields([] + [f]) == PrintFields([]) + (f.name + ": " + f.value + CRLF)
    ensures PrintFields([f]) == f.name + ": " + f.value + CRLF
  {
    assert [] + [f] == [f];
  }

  lemma AskingForPersistenceIsValid()
    ensures ValidField(Field(CONNECTION, 1, KEEP_ALIVE))
  {
    assert Clean(CONNECTION, KEEP_ALIVE);
    CleanFieldIsValid(CONNECTION, KEEP_ALIVE);
  }

  lemma BindOne(f: Field)
    ensures Bind(map[], [f]) == map[f.name := f.value]
  {
    assert [f][1..] == [];
  }

  /** The same request twice in one read: the second is not handled. */
  lemma TwoGetsAtOnce() returns (es: seq<Event>, w: World)
    ensures Path(START, es, w) && w.s.read.ReadInFlight? && !w.s.closed && w.readCount == 1
    ensures w.received == PERSISTENT_GET_BYTES + PERSISTENT_GET_BYTES
    ensures |w.handled| == 1 && |Frames(w.received)| == 2
  {
    PersistentGetIsValid();
    PersistentGetInBytes();
    var items := QuietItems(Meaning(PERSISTENT_GET));
    es, w := PipelinedRequestLags(PERSISTENT_GET, PERSISTENT_GET, QUIET, items);
  }

  lemma QuietItems(r: Request) returns (items: seq<Field>)
    ensures Respond(r, QUIET).Reply? ==> ValidExchange(Exchange(r, QUIET, items))
  {
    items := EnumerationExists(Completed(ReplyTo(r, QUIET)).headers);
    EmptyAnswerIsValid(r, QUIET, items);
  }

  /** The early 404 misleads: for any request outside /api/ that asks for persistence, when the file
      has no canonical path, the answer announces close and the session reads on. */
  lemma EarlyReturnMisleads(m: Message, svc: Services, items: seq<Field>) returns (es: seq<Event>, w: World)
    requires Valid(m) && WantsKeepAlive(Meaning(m)) && ValidExchange(Exchange(Meaning(m), svc, items))
    requires EarlyReturn(Exchange(Meaning(m), svc, items))
    ensures Path(START, es, w) && w.s.write.WriteOk? && !w.s.closed && !w.s.crashed
    ensures w.received == Print(m) && Next(w, WriteHandler).s.read.ReadInFlight?
    ensures |Replies(w.wire)| == 1 && !Announces(Replies(w.wire)[0])
  {
    es, w := FirstRequestRun(m, "", svc, items);
    PersistenceExactly(es, w);
    AnnouncementIsTrueExactly(es, w);
  }

  /** GET of a file that is not there: the answer announces close, and the session reads on. */
  lemma MissingFileMisleads() returns (es: seq<Event>, w: World)
    ensures Path(START, es, w) && w.s.write.WriteOk? && !w.s.closed && !w.s.crashed
    ensures w.received == PERSISTENT_GET_BYTES
    ensures Next(w, WriteHandler).s.read.ReadInFlight?
    ensures |Replies(w.wire)| == 1 && !Announces(Replies(w.wire)[0])
  {
    PersistentGetIsValid();
    PersistentGetInBytes();
    var r, svc := Meaning(PERSISTENT_GET), Services(0, ApiThrows, _ => NoCanonicalPath);
    var items := EnumerationExists(Completed(ReplyTo(r, svc)).headers);
    NotFoundPageIsShort("");
    es, w := EarlyReturnMisleads(PERSISTENT_GET, svc, items);
  }

  const PLAIN_GET := Message(GET, "/x", "HTTP/1.1", [], "")

  lemma PlainGetIsValid()
    ensures Valid(PLAIN_GET) && Print(PLAIN_GET) == "GET /x HTTP/1.1" + "\r\n" + "\r\n"
  {
    assert PrintRequestLine(PLAIN_GET) == "GET /x HTTP/1.1";
    NoReturnNoCrlf("GET /x HTTP/1.1");
  }

  lemma PlainGetIsAnswered()
    ensures Respond(Meaning(PLAIN_GET), QUIET).Reply?
  {
    assert !IsApi(Route("/x"));
  }

  /** GET without a Connection header is HTTP/1.1 persistence by default, but the session closes. */
  lemma PlainGetIsClosed() returns (es: seq<Event>, w: World)
    ensures Path(START, es, w) && w.s.closed && !w.s.crashed && |w.exchanges| == 1
    ensures w.received == "GET /x HTTP/1.1" + "\r\n" + "\r\n"
  {
    PlainGetIsValid();
    PlainGetIsAnswered();
    var r := Meaning(PLAIN_GET);
    var items := QuietItems(r);
    es, w := AnsweredAndClosed(PLAIN_GET, Exchange(r, QUIET, items));
  }

  lemma AnsweredAndClosed(m: Message, x: Exchange) returns (es: seq<Event>, w: World)
    requires Valid(m) && ValidExchange(x) && x.request == Meaning(m) && m.fields == []
    ensures Path(START, es, w) && w.s.closed && !w.s.crashed && w.exchanges == [x] && w.received == Print(m)
  {
    es, w := FirstRequestRun(m, "", x.services, x.items);
    assert Print(m) + "" == Print(m);
    PersistenceExactly(es, w);
    es, w := Extend(es, w, WriteHandler);
  }
}
