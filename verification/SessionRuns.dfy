/** Whole runs of one session: a step machine over the handlers of `SessionModel` and the events of
    the network, the timer and the caller of `Stop`, with a record of what has happened. */
module SessionRuns {
  import opened Bytes
  import opened Decimal
  import opened RequestParser
  import opened Fragmentation
  import opened Grammar
  import opened ResponseBuilder
  import opened SessionModel

  /** A request that was answered: what the services said and the order of the printed headers. */
  datatype Exchange = Exchange(request: Request, services: Services, items: seq<Field>)

  /** A session and its history: bytes passed to the parser, requests passed to `HandleRequest`,
      bytes after the last of those, answers built, bytes of the current answer that have left,
      all bytes that have left, and successful reads. */
  datatype World = World(
    s: State,
    received: bytes,
    handled: seq<Request>,
    tail: bytes,
    exchanges: seq<Exchange>,
    sent: nat,
    wire: bytes,
    readCount: nat)

  const START := World(Started(NEW_SESSION), "", [], "", [], 0, "", 0)

  datatype Event =
    | ReadArrives(data: bytes) | ReadFails | ReadHandler(svc: Services, items: seq<Field>)
    | WriteProgress(count: nat) | WriteDrains | WriteFails | WriteHandler
    | TimerExpires | TimerHandler
    | StopCall

  function ReplyTo(r: Request, svc: Services): Response {
    var answer := Respond(r, svc);
    if answer.Reply? then answer.response else EMPTY_RESPONSE
  }

  function ReplyOf(x: Exchange): Response {
    ReplyTo(x.request, x.services)
  }

  function BytesOf(x: Exchange): bytes {
    Rendered(Completed(ReplyOf(x)), x.items)
  }

  ghost predicate ValidExchange(x: Exchange) {
    && Respond(x.request, x.services).Reply?
    && ItemsFit(x.request, x.services, x.items)
    && |ReplyOf(x).body| < TWO_TO_THE_64
  }

  /** Which events can happen. Completions arrive for operations in flight; a handler runs when its
      completion is queued; a body is a string, so its length is a `size_t`. */
  ghost predicate Enabled(w: World, e: Event) {
    var s := w.s;
    !s.crashed
    && match e
       case ReadArrives(_) => s.read.ReadInFlight?
       case ReadFails => s.read.ReadInFlight?
       case ReadHandler(svc, items) =>
         s.read.ReadErr?
         || (s.read.ReadOk? && (ParsedOnRead(s).outcome.Finished? && Respond(ParsedOnRead(s).request, svc).Reply?
                                ==> ValidExchange(Exchange(ParsedOnRead(s).request, svc, items))))
       case WriteProgress(count) => s.write.WriteInFlight? && w.sent + count <= |s.writeBuffer|
       case WriteDrains => s.write.WriteInFlight? && w.sent == |s.writeBuffer|
       case WriteFails => s.write.WriteInFlight?
       case WriteHandler => s.write.WriteOk? || s.write.WriteErr?
       case TimerExpires => s.timer.Waiting?
       case TimerHandler => s.timer.Expired? || s.timer.Aborted?
       case StopCall => true
  }

  function Next(w: World, e: Event): World
    requires Enabled(w, e)
  {
    var s := w.s;
    match e
    case ReadArrives(data) => w.(s := s.(read := ReadOk(data)))
    case ReadFails => w.(s := s.(read := ReadErr))
    case ReadHandler(svc, items) => NextRead(w, svc, items)
    case WriteProgress(count) => w.(sent := w.sent + count, wire := w.wire + s.writeBuffer[w.sent..w.sent + count])
    case WriteDrains => w.(s := s.(write := WriteOk))
    case WriteFails => w.(s := s.(write := WriteErr))
    case WriteHandler => w.(s := AfterWrite(s))
    case TimerExpires => w.(s := s.(timer := Expired))
    case TimerHandler => w.(s := AfterTimer(s))
    case StopCall => w.(s := Stopped(s))
  }

  function NextRead(w: World, svc: Services, items: seq<Field>): World
    requires w.s.read.ReadOk? || w.s.read.ReadErr?
  {
    var w1 := w.(s := AfterRead(w.s, svc, items));
    if w.s.read.ReadErr? then w1
    else
      var p, data := ParsedOnRead(w.s), w.s.read.data;
      var w2 := w1.(received := w.received + data, readCount := w.readCount + 1);
      if !p.outcome.Finished? then w2.(tail := w.tail + data)
      else
        var w3 := w2.(tail := p.rest, handled := w.handled + [p.request]);
        if Respond(p.request, svc).Raised? then w3
        else w3.(exchanges := w.exchanges + [Exchange(p.request, svc, items)], sent := 0)
  }

  ghost predicate Path(w: World, es: seq<Event>, end: World)
    decreases |es|
  {
    if es == [] then end == w else Enabled(w, es[0]) && Path(Next(w, es[0]), es[1..], end)
  }

  lemma {:induction false} PathSnoc(w: World, es: seq<Event>, mid: World, e: Event)
    requires Path(w, es, mid) && Enabled(mid, e)
    ensures Path(w, es + [e], Next(mid, e))
    decreases |es|
  {
    if es == [] {
      assert ([] + [e])[1..] == [];
    } else {
      assert (es + [e])[1..] == es[1..] + [e];
      PathSnoc(Next(w, es[0]), es[1..], mid, e);
    }
  }

  /** A run each of whose events meets a condition when it happens. */
  ghost predicate PathWhere(ok: (World, Event) -> bool, w: World, es: seq<Event>, end: World)
    decreases |es|
  {
    if es == [] then end == w
    else Enabled(w, es[0]) && ok(w, es[0]) && PathWhere(ok, Next(w, es[0]), es[1..], end)
  }

  lemma {:induction false} PathWhereIsPath(ok: (World, Event) -> bool, w: World, es: seq<Event>, end: World)
    requires PathWhere(ok, w, es, end)
    ensures Path(w, es, end)
    decreases |es|
  {
    if es != [] {
      PathWhereIsPath(ok, Next(w, es[0]), es[1..], end);
    }
  }

  lemma {:induction false} PathWhereSnoc(ok: (World, Event) -> bool, w: World, es: seq<Event>, mid: World, e: Event)
    requires PathWhere(ok, w, es, mid) && Enabled(mid, e) && ok(mid, e)
    ensures PathWhere(ok, w, es + [e], Next(mid, e))
    decreases |es|
  {
    if es == [] {
      assert ([] + [e])[1..] == [];
    } else {
      assert (es + [e])[1..] == es[1..] + [e];
      PathWhereSnoc(ok, Next(w, es[0]), es[1..], mid, e);
    }
  }

  // --- One operation in flight -------------------------------------------------------------------

  /** Between handlers an open session waits for exactly one of a read and a write, and nothing is
      left in the write buffer while it waits for a read. */
  predicate Shape(s: State) {
    && (s.read.NoRead? || s.write.NoWrite?)
    && (!s.closed && !s.crashed ==> !(s.read.NoRead? && s.write.NoWrite?))
    && (!s.read.NoRead? ==> s.writeBuffer == "")
    && (s.closed ==> !s.read.ReadInFlight? && !s.write.WriteInFlight? && !s.timer.Waiting?)
    && (s.crashed ==> s.read.NoRead? && s.write.NoWrite?)
  }

  /** The timer's only wait ends with the first successful read, and not before it unless it expires. */
  predicate TimerSpent(w: World) {
    && (w.readCount > 0 ==> !w.s.timer.Waiting?)
    && (w.readCount == 0 && !w.s.closed && !w.s.crashed ==> w.s.timer.Waiting? || w.s.timer.Expired?)
  }

  lemma ShapeKept(w: World, e: Event)
    requires Enabled(w, e) && Shape(w.s) && TimerSpent(w)
    ensures Shape(Next(w, e).s) && TimerSpent(Next(w, e))
    ensures w.s.closed ==> Next(w, e).s.closed
    ensures Next(w, e).readCount >= w.readCount
  {}

  // --- Framing of the received stream -----------------------------------------------------------

  lemma {:induction false} FinishedConsumes(r: Request, b: bytes)
    requires ParseBytes(r, b).outcome.Finished? && (r.state.REQUEST_LINE? || r.state.HEADERS?)
    ensures |ParseBytes(r, b).rest| < |b|
    decreases |b|
  {
    RestIsSuffix(r, b);
    match OnePass(r, b)
    case Again(r1, b1) => RestIsSuffix(r1, b1);
    case Halt(_, _, _) =>
  }

  /** The requests in a byte stream: parse one from a fresh parser, then the next from what it left. */
  function Frames(b: bytes): seq<Request>
    decreases |b|
  {
    var p := ParseBytes(FRESH, b);
    if p.outcome.Finished? then
      FinishedConsumes(FRESH, b);
      [p.request] + Frames(p.rest)
    else []
  }

  /** `rs` are the first requests in `b`, and `tail` is what follows them. */
  predicate Framed(b: bytes, rs: seq<Request>, tail: bytes)
    decreases |rs|
  {
    if rs == [] then b == tail
    else
      var p := ParseBytes(FRESH, b);
      p.outcome.Finished? && p.request == rs[0] && Framed(p.rest, rs[1..], tail)
  }

  lemma {:induction false} FramedExtends(b: bytes, rs: seq<Request>, tail: bytes, c: bytes)
    requires Framed(b, rs, tail)
    ensures Framed(b + c, rs, tail + c)
    decreases |rs|
  {
    if rs != [] {
      FinishedExtends(FRESH, b, c);
      FramedExtends(ParseBytes(FRESH, b).rest, rs[1..], tail, c);
    }
  }

  lemma {:induction false} FinishedStays(r: Request, b: bytes)
    requires ParseBytes(r, b).outcome.Finished?
    ensures var p := ParseBytes(r, b);
            forall c: bytes :: ParseBytes(p.request, c) == Parsed(p.request, c, Finished)
    decreases |b|
  {
    match OnePass(r, b)
    case Again(r1, b1) => FinishedStays(r1, b1);
    case Halt(r1, _, _) => assert r1.state.FINISH?;
  }

  /** Bytes after a finished request are left over. */
  lemma FinishedExtends(r: Request, b: bytes, c: bytes)
    requires ParseBytes(r, b).outcome.Finished?
    ensures ParseBytes(r, b + c) == ParseBytes(r, b).(rest := ParseBytes(r, b).rest + c)
  {
    SplitInvariance(r, b, c);
    FinishedStays(r, b);
  }

  lemma {:induction false} FramedSnoc(b: bytes, rs: seq<Request>, tail: bytes)
    requires Framed(b, rs, tail) && ParseBytes(FRESH, tail).outcome.Finished?
    ensures var p := ParseBytes(FRESH, tail); Framed(b, rs + [p.request], p.rest)
    decreases |rs|
  {
    var last := ParseBytes(FRESH, tail).request;
    if rs == [] {
      assert ([] + [last])[1..] == [];
    } else {
      assert (rs + [last])[1..] == rs[1..] + [last];
      FramedSnoc(ParseBytes(FRESH, b).rest, rs[1..], tail);
    }
  }

  lemma {:induction false} FramedFrames(b: bytes, rs: seq<Request>, tail: bytes)
    requires Framed(b, rs, tail)
    ensures Frames(b) == rs + Frames(tail)
    decreases |rs|
  {
    if rs != [] {
      FramedFrames(ParseBytes(FRESH, b).rest, rs[1..], tail);
      assert rs == [rs[0]] + rs[1..];
    }
  }

  /** Parser and read buffer stand where parsing `tail` from scratch leaves them, or the leftover
      bytes have not been looked at since the last request. */
  predicate InStep(s: State, tail: bytes) {
    || (s.request == FRESH && s.readBuffer == tail)
    || ParseBytes(FRESH, tail) == Parsed(s.request, s.readBuffer, Unfinished)
  }

  lemma InStepParse(s: State, tail: bytes, c: bytes)
    requires InStep(s, tail)
    ensures ParseBytes(s.request, s.readBuffer + c) == ParseBytes(FRESH, tail + c)
  {
    SplitInvariance(FRESH, tail, c);
  }

  predicate Framing(w: World) {
    && Framed(w.received, w.handled, w.tail)
    && (!w.s.read.NoRead? ==> InStep(w.s, w.tail))
    && (!w.s.write.NoWrite? ==> w.s.readBuffer == w.tail)
  }

  lemma FramingKept(w: World, e: Event)
    requires Enabled(w, e) && Shape(w.s) && Framing(w)
    ensures Framing(Next(w, e))
  {
    if e.ReadHandler? && w.s.read.ReadOk? {
      FramingAfterRead(w, e.svc, e.items);
    }
  }

  lemma FramingAfterRead(w: World, svc: Services, items: seq<Field>)
    requires w.s.read.ReadOk? && w.s.write.NoWrite? && Framing(w)
    ensures Framing(NextRead(w, svc, items))
  {
    var data, p, w1 := w.s.read.data, ParsedOnRead(w.s), NextRead(w, svc, items);
    InStepParse(w.s, w.tail, data);
    FramedExtends(w.received, w.handled, w.tail, data);
    if p.outcome.Finished? {
      FramedSnoc(w.received + data, w.handled, w.tail + data);
      assert w1.handled == w.handled + [p.request] && w1.tail == p.rest == w1.s.readBuffer;
      assert w1.s.read.NoRead?;
    } else {
      assert w1.handled == w.handled && w1.tail == w.tail + data && w1.s.write.NoWrite?;
    }
  }

  // --- Answers --------------------------------------------------------------------------------------

  /** Each request handled has been answered, except perhaps one whose answer raised an exception. */
  ghost predicate Answered(w: World) {
    && |w.exchanges| <= |w.handled| <= |w.exchanges| + 1
    && (!w.s.crashed ==> |w.exchanges| == |w.handled|)
    && (forall i :: 0 <= i < |w.exchanges| ==>
          ValidExchange(w.exchanges[i]) && w.exchanges[i].request == w.handled[i])
  }

  lemma AnsweredKept(w: World, e: Event)
    requires Enabled(w, e) && Answered(w)
    ensures Answered(Next(w, e))
  {
    if e.ReadHandler? && w.s.read.ReadOk? {
      var p := ParsedOnRead(w.s);
      if p.outcome.Finished? && Respond(p.request, e.svc).Reply? {
        assert ValidExchange(Exchange(p.request, e.svc, e.items));
      }
    }
  }

  // --- Every reachable state ---------------------------------------------------------------------

  ghost predicate Inv(w: World) {
    Shape(w.s) && TimerSpent(w) && Framing(w) && Answered(w)
  }

  lemma InvKept(w: World, e: Event)
    requires Inv(w) && Enabled(w, e)
    ensures Inv(Next(w, e))
  {
    ShapeKept(w, e);
    FramingKept(w, e);
    AnsweredKept(w, e);
  }

  lemma {:induction false} InvAlong(w: World, es: seq<Event>, end: World)
    requires Inv(w) && Path(w, es, end)
    ensures Inv(end)
    decreases |es|
  {
    if es != [] {
      InvKept(w, es[0]);
      InvAlong(Next(w, es[0]), es[1..], end);
    }
  }

  lemma InvAtStart()
    ensures Inv(START)
  {
    assert ParseBytes(FRESH, "") == Parsed(FRESH, "", Unfinished);
  }

  lemma Reachable(es: seq<Event>, w: World)
    requires Path(START, es, w)
    ensures Inv(w)
  {
    InvAtStart();
    InvAlong(START, es, w);
  }

  /** One operation in flight: an open session waits for a read or for a write, never for both. */
  lemma OneOperationInFlight(es: seq<Event>, w: World)
    requires Path(START, es, w) && !w.s.closed && !w.s.crashed
    ensures w.s.read.NoRead? <==> !w.s.write.NoWrite?
    ensures !w.s.read.NoRead? ==> w.s.writeBuffer == ""
  {
    Reachable(es, w);
  }

  /** Whole-run framing: the requests handled are the first ones in the received stream, whatever
      the reads, and each was read by a parser that knew nothing of the ones before. */
  lemma HandledAreFirstFrames(es: seq<Event>, w: World)
    requires Path(START, es, w)
    ensures w.handled <= Frames(w.received)
    ensures Framed(w.received, w.handled, w.tail)
  {
    Reachable(es, w);
    FramedFrames(w.received, w.handled, w.tail);
  }

  /** How far handling lags: a session waiting for data has handled every complete request received,
      if and only if the bytes after the last one handled do not start with a message of the grammar;
      that is, if parsing again what it has in its buffer would not finish. */
  lemma AllFramesHandledExactly(es: seq<Event>, w: World)
    requires Path(START, es, w) && w.s.read.ReadInFlight?
    ensures w.handled == Frames(w.received) <==> !exists m, t :: StartsWithMessage(w.tail, m, t)
    ensures w.handled == Frames(w.received) <==> !ParseBytes(w.s.request, w.s.readBuffer).outcome.Finished?
  {
    Reachable(es, w);
    FramedFrames(w.received, w.handled, w.tail);
    InStepParse(w.s, w.tail, "");
    assert w.s.readBuffer + "" == w.s.readBuffer && w.tail + "" == w.tail;
    assert w.handled == w.handled + Frames(w.tail) <==> Frames(w.tail) == [];
    AcceptsExactlyTheGrammar(w.tail);
  }
}
