/** The written stream of a session over whole runs, and what a client reads out of it. */
module SessionWire {
  import opened Bytes
  import opened Decimal
  import opened RequestParser
  import opened Fragmentation
  import opened Grammar
  import opened ResponseBuilder
  import opened ResponseRoundTrip
  import opened SessionModel
  import opened SessionRuns
  import opened Streams

  function Outputs(xs: seq<Exchange>): (outs: seq<bytes>)
    ensures |outs| == |xs|
  {
    if xs == [] then [] else [BytesOf(xs[0])] + Outputs(xs[1..])
  }

  lemma {:induction false} OutputsSnoc(xs: seq<Exchange>, x: Exchange)
    ensures Outputs(xs + [x]) == Outputs(xs) + [BytesOf(x)]
  {
    if xs == [] {
      assert ([] + [x])[1..] == [];
    } else {
      assert (xs + [x])[1..] == xs[1..] + [x];
      OutputsSnoc(xs[1..], x);
    }
  }

  lemma {:induction false} OutputAt(xs: seq<Exchange>, i: nat)
    requires i < |xs|
    ensures Outputs(xs)[i] == BytesOf(xs[i])
  {
    if i > 0 {
      OutputAt(xs[1..], i - 1);
      InTail(BytesOf(xs[0]), Outputs(xs[1..]), i);
    }
  }

  lemma InTail(first: bytes, more: seq<bytes>, i: nat)
    requires 0 < i <= |more|
    ensures ([first] + more)[i] == more[i - 1]
  {}

  // --- The invariant -------------------------------------------------------------------------------

  ghost predicate Streamed(outs: seq<bytes>, s: State, sent: nat, wire: bytes) {
    && Within(outs, sent)
    && wire == Leaving(outs, sent)
    && (!s.write.NoWrite? ==> outs != [] && s.writeBuffer == outs[|outs| - 1])
    && (s.write.WriteOk? || !s.read.NoRead? ==> Whole(outs, sent))
  }

  /** While an answer is being written, the flag is the one its request asked for. */
  predicate KeepAliveKnown(xs: seq<Exchange>, s: State) {
    !s.write.NoWrite? ==> xs != [] && s.keepAlive == WantsKeepAlive(xs[|xs| - 1].request)
  }

  ghost predicate Wire(w: World) {
    Streamed(Outputs(w.exchanges), w.s, w.sent, w.wire) && KeepAliveKnown(w.exchanges, w.s)
  }

  /** More of the last output leaves. */
  lemma StreamedProgress(outs: seq<bytes>, s: State, sent: nat, wire: bytes, count: nat)
    requires Streamed(outs, s, sent, wire) && s.write.WriteInFlight? && s.read.NoRead?
    requires sent + count <= |s.writeBuffer|
    ensures Streamed(outs, s, sent + count, wire + s.writeBuffer[sent..sent + count])
  {
    var before, last := Concat(outs[..|outs| - 1]), outs[|outs| - 1];
    assert last[..sent] + last[sent..sent + count] == last[..sent + count];
    Regroup(before, last[..sent], last[sent..sent + count]);
  }

  /** A further output is started when nothing is missing of the one before. */
  lemma StreamedAfterAnswer(outs: seq<bytes>, out: bytes, s: State, sent: nat, wire: bytes)
    requires Within(outs, sent) && Whole(outs, sent) && wire == Leaving(outs, sent)
    requires s.writeBuffer == out && s.read.NoRead? && !s.write.WriteOk?
    ensures Streamed(outs + [out], s, 0, wire)
  {
    LeavingIsPrefix(outs, sent);
    assert (outs + [out])[..|outs|] == outs;
    assert wire == wire + out[..0];
  }

  /** An answer is started on an empty write buffer. */
  lemma AnswerStarted(s: State, svc: Services, items: seq<Field>)
    requires s.writeBuffer == "" && s.read.NoRead? && !s.crashed && Respond(s.request, svc).Reply?
    ensures var s1 := Handled(s, svc, items);
            && s1.writeBuffer == BytesOf(Exchange(s.request, svc, items))
            && (s1.write.WriteInFlight? || s1.write.WriteErr?)
            && s1.read.NoRead? && !s1.crashed && s1.keepAlive == WantsKeepAlive(s.request)
  {
    var out := BytesOf(Exchange(s.request, svc, items));
    assert "" + out == out;
  }

  lemma WireAfterRead(w: World, svc: Services, items: seq<Field>)
    requires w.s.read.ReadOk? && Shape(w.s) && !w.s.crashed && Wire(w)
    ensures Wire(NextRead(w, svc, items))
  {
    var p := ParsedOnRead(w.s);
    var s := w.s.(read := NoRead, timer := CancelWait(w.s.timer), request := p.request, readBuffer := p.rest);
    var w1 := NextRead(w, svc, items);
    if p.outcome.Finished? && Respond(p.request, svc).Reply? {
      var x := Exchange(p.request, svc, items);
      AnswerStarted(s, svc, items);
      StreamedAfterAnswer(Outputs(w.exchanges), BytesOf(x), w1.s, w.sent, w.wire);
      OutputsSnoc(w.exchanges, x);
    } else {
      assert w1.exchanges == w.exchanges && w1.wire == w.wire && w1.sent == w.sent && w1.s.write.NoWrite?;
    }
  }

  lemma WireProgress(w: World, count: nat)
    requires Enabled(w, WriteProgress(count)) && Shape(w.s) && Wire(w)
    ensures Wire(Next(w, WriteProgress(count)))
  {
    var w1 := Next(w, WriteProgress(count));
    assert w1.s == w.s && w1.exchanges == w.exchanges && w1.sent == w.sent + count;
    StreamedProgress(Outputs(w.exchanges), w.s, w.sent, w.wire, count);
  }

  lemma WireAfterWrite(w: World)
    requires Enabled(w, WriteHandler) && Shape(w.s) && Wire(w)
    ensures Wire(Next(w, WriteHandler))
  {}

  lemma WireElsewhere(w: World, e: Event)
    requires Enabled(w, e) && Shape(w.s) && Wire(w)
    requires !(e.ReadHandler? && w.s.read.ReadOk?) && !e.WriteProgress? && !e.WriteHandler?
    ensures Wire(Next(w, e))
  {
    var s1 := Next(w, e).s;
    assert Next(w, e) == w.(s := s1);
    assert s1.keepAlive == w.s.keepAlive && s1.writeBuffer == w.s.writeBuffer;
  }

  lemma WireKept(w: World, e: Event)
    requires Enabled(w, e) && Shape(w.s) && Wire(w)
    ensures Wire(Next(w, e))
  {
    match e
    case ReadHandler(svc, items) =>
      if w.s.read.ReadOk? {
        WireAfterRead(w, svc, items);
        assert Next(w, e) == NextRead(w, svc, items);
      } else {
        WireElsewhere(w, e);
      }
    case WriteProgress(count) => WireProgress(w, count);
    case WriteHandler => WireAfterWrite(w);
    case _ => WireElsewhere(w, e);
  }

  lemma {:induction false} WireAlong(w: World, es: seq<Event>, end: World)
    requires Inv(w) && Wire(w) && Path(w, es, end)
    ensures Wire(end)
    decreases |es|
  {
    if es != [] {
      WireKept(w, es[0]);
      InvKept(w, es[0]);
      WireAlong(Next(w, es[0]), es[1..], end);
    }
  }

  lemma WireReachable(es: seq<Event>, w: World)
    requires Path(START, es, w)
    ensures Inv(w) && Wire(w)
  {
    Reachable(es, w);
    InvAtStart();
    WireAlong(START, es, w);
  }

  /** The written stream, in every state of every run: all answers but the last are complete and in
      order, one for each request answered, and then as much of the last one as has been sent. It is
      the whole of them exactly when that is all of the last one, in particular when a write has
      just succeeded, closing the session or not, and whenever a read is pending. */
  lemma WireIsAnswersInOrder(es: seq<Event>, w: World)
    requires Path(START, es, w)
    ensures var outs := Outputs(w.exchanges);
            && Within(outs, w.sent) && w.wire == Leaving(outs, w.sent)
            && w.wire <= Concat(outs)
            && (w.wire == Concat(outs) <==> Whole(outs, w.sent))
            && (w.s.write.WriteOk? || !w.s.read.NoRead? ==> w.wire == Concat(outs))
    ensures |w.exchanges| <= |w.handled| <= |w.exchanges| + 1 && (!w.s.crashed ==> |w.exchanges| == |w.handled|)
    ensures forall i :: 0 <= i < |w.exchanges| ==> w.exchanges[i].request == w.handled[i]
  {
    WireReachable(es, w);
    LeavingIsPrefix(Outputs(w.exchanges), w.sent);
  }

  // --- Runs of successful writes -----------------------------------------------------------------------

  /** Every write that completes in this run is a success. */
  ghost predicate WritesSucceed(w: World, es: seq<Event>)
    decreases |es|
  {
    es != [] ==>
      Enabled(w, es[0]) && (es[0].WriteHandler? ==> w.s.write.WriteOk?) && WritesSucceed(Next(w, es[0]), es[1..])
  }

  lemma NothingMissingStep(w: World, e: Event)
    requires Enabled(w, e) && Shape(w.s) && Wire(w) && (e.WriteHandler? ==> w.s.write.WriteOk?)
    requires w.s.write.NoWrite? ==> Whole(Outputs(w.exchanges), w.sent)
    ensures Next(w, e).s.write.NoWrite? ==> Whole(Outputs(Next(w, e).exchanges), Next(w, e).sent)
  {
    var w1 := Next(w, e);
    if e.ReadHandler? && w.s.read.ReadOk? {
      var p := ParsedOnRead(w.s);
      if p.outcome.Finished? && Respond(p.request, e.svc).Reply? {
        assert !w1.s.write.NoWrite?;
      } else {
        assert w1.exchanges == w.exchanges && w1.sent == w.sent;
      }
    } else {
      assert w1.exchanges == w.exchanges;
    }
  }

  lemma {:induction false} NothingMissing(w: World, es: seq<Event>, end: World)
    requires Path(w, es, end) && WritesSucceed(w, es) && Inv(w) && Wire(w)
    requires w.s.write.NoWrite? ==> Whole(Outputs(w.exchanges), w.sent)
    ensures end.s.write.NoWrite? ==> Whole(Outputs(end.exchanges), end.sent)
    decreases |es|
  {
    if es != [] {
      NothingMissingStep(w, es[0]);
      WireKept(w, es[0]);
      InvKept(w, es[0]);
      NothingMissing(Next(w, es[0]), es[1..], end);
    }
  }

  /** In a run of successful writes, everything has left whenever no write is pending: also from a
      session that has closed after its last answer, or that an exception has ended. */
  lemma EveryAnswerLeaves(es: seq<Event>, w: World)
    requires Path(START, es, w) && WritesSucceed(START, es) && w.s.write.NoWrite?
    ensures w.wire == Concat(Outputs(w.exchanges)) && Whole(Outputs(w.exchanges), w.sent)
  {
    InvAtStart();
    NothingMissing(START, es, w);
    WireIsAnswersInOrder(es, w);
  }

  /** Only a failing write, `Stop` or the timer can make a write fail. */
  lemma UndisturbedWritesSucceed(es: seq<Event>, w: World)
    requires Path(START, es, w) && forall e :: e in es ==> !e.WriteFails? && !e.StopCall? && !e.TimerExpires?
    ensures WritesSucceed(START, es) && !w.s.write.WriteErr?
  {
    UndisturbedAlong(START, es, w);
  }

  lemma UndisturbedKept(w: World, e: Event)
    requires Enabled(w, e) && !e.WriteFails? && !e.StopCall? && !e.TimerExpires?
    requires Shape(w.s) && TimerSpent(w) && Undisturbed(w.s)
    ensures Shape(Next(w, e).s) && TimerSpent(Next(w, e)) && Undisturbed(Next(w, e).s)
  {
    ShapeKept(w, e);
  }

  lemma {:induction false} UndisturbedAlong(w: World, es: seq<Event>, end: World)
    requires Path(w, es, end) && forall e :: e in es ==> !e.WriteFails? && !e.StopCall? && !e.TimerExpires?
    requires Shape(w.s) && TimerSpent(w) && Undisturbed(w.s)
    ensures WritesSucceed(w, es) && Undisturbed(end.s)
    decreases |es|
  {
    if es != [] {
      UndisturbedKept(w, es[0]);
      assert es[0] in es && forall e :: e in es[1..] ==> e in es;
      UndisturbedAlong(Next(w, es[0]), es[1..], end);
    }
  }

  predicate Undisturbed(s: State) {
    !s.write.WriteErr? && !s.timer.Expired? && (s.closed ==> s.read.NoRead? && s.write.NoWrite?)
  }

  // --- The client reads the answers back -----------------------------------------------------------------

  datatype Received = Received(code: Conversion, headers: map<bytes, bytes>, body: bytes)

  /** What a client gets out of the stream, reading status lines and then header sections and bodies. */
  function Replies(b: bytes): seq<Received>
    decreases |b|
  {
    var p := ReadReply(b);
    if p.outcome.Finished? then
      var n := FindCrlf(b).value;
      RestIsSuffix(AT_HEADERS, b[n + 2..]);
      [Received(ReadCode(b[..n]), p.request.headers, p.request.body)] + Replies(p.rest)
    else []
  }

  /** The status, headers and body the server meant to send. */
  function AnswerIn(x: Exchange): Received {
    Received(Number(Code(ReplyOf(x).status)), Completed(ReplyOf(x)).headers, ReplyOf(x).body)
  }

  function Answers(xs: seq<Exchange>): (answers: seq<Received>)
    ensures |answers| == |xs| && forall i :: 0 <= i < |xs| ==> answers[i] == AnswerIn(xs[i])
  {
    if xs == [] then [] else [AnswerIn(xs[0])] + Answers(xs[1..])
  }

  lemma ErrorIsClean(status: HttpStatus, message: bytes)
    ensures AllClean(ErrorResponse(status, message).headers)
  {
    NoReturnNoCrlf("text/html; charset=utf-8");
  }

  lemma JsonIsClean(json: bytes)
    ensures AllClean(JsonResponse(json).headers)
  {
    NoReturnNoCrlf("application/json; charset=utf-8");
  }

  lemma ApiReplyIsClean(path: bytes, verb: HttpMethod, svc: Services)
    requires RespondApi(path, verb, svc).Reply?
    ensures AllClean(RespondApi(path, verb, svc).response.headers)
  {
    JsonIsClean(HEALTH);
    JsonIsClean(Info(svc.id));
    ErrorIsClean(NOT_FOUND, NO_ROUTE);
    if svc.api.ApiJson? {
      JsonIsClean(svc.api.json);
    }
  }

  lemma FileReplyIsClean(file: FileReply)
    requires RespondFile(file).Reply?
    ensures AllClean(RespondFile(file).response.headers)
  {
    match file
    case NoCanonicalPath => ErrorIsClean(NOT_FOUND, "");
    case OutsideRoot => ErrorIsClean(FORBIDDEN, "");
    case Regular(ext, content) =>
      ContentTypeIsClean(ext);
      ErrorIsClean(INTERNAL_SERVER_ERROR, "");
    case Missing => ErrorIsClean(NOT_FOUND, "");
  }

  lemma ReplyIsClean(r: Request, svc: Services)
    ensures AllClean(ReplyTo(r, svc).headers)
  {
    if Respond(r, svc).Reply? {
      var path := Route(r.path);
      if IsApi(path) {
        ApiReplyIsClean(path, r.verb, svc);
      } else {
        FileReplyIsClean(svc.file(path[1..]));
      }
    }
  }

  lemma FirstReply(x: Exchange, more: bytes)
    requires ValidExchange(x)
    ensures Replies(BytesOf(x) + more) == [AnswerIn(x)] + Replies(more)
  {
    var r := ReplyOf(x);
    ReplyIsClean(x.request, x.services);
    ReadRenderedReply(r, x.items, more);
    RegroupLine(StatusLine(r.status), PrintFields(x.items) + CRLF + r.body, more);
    StatusLineHasNoCrlf(r.status);
    FindCrlfAfterLine(StatusLine(r.status), PrintFields(x.items) + CRLF + r.body + more);
    StatusIsReadBack(r.status);
  }

  lemma {:induction false} AllReadBack(xs: seq<Exchange>)
    requires forall i :: 0 <= i < |xs| ==> ValidExchange(xs[i])
    ensures AllReadAs(Replies, Outputs(xs), Answers(xs))
    decreases |xs|
  {
    if xs != [] {
      forall more: bytes ensures Replies(BytesOf(xs[0]) + more) == [AnswerIn(xs[0])] + Replies(more) {
        FirstReply(xs[0], more);
      }
      AllReadBack(xs[1..]);
    }
  }

  /** Any sequence of answers is read back answer by answer, whatever follows it. */
  lemma RepliesOfOutputs(xs: seq<Exchange>, more: bytes)
    requires forall i :: 0 <= i < |xs| ==> ValidExchange(xs[i])
    ensures Replies(Concat(Outputs(xs)) + more) == Answers(xs) + Replies(more)
  {
    AllReadBack(xs);
    ReadConcat(Replies, Outputs(xs), Answers(xs), more);
  }

  /** Bytes after a complete answer are left over. */
  lemma ReadReplyExtends(part: bytes, missing: bytes)
    requires ReadReply(part).outcome.Finished?
    ensures ReadReply(part + missing).rest == ReadReply(part).rest + missing
  {
    var n := FindCrlf(part).value;
    FindCrlfAppend(part, missing);
    PrefixStays(part, missing, n + 2);
    FinishedExtends(AT_HEADERS, part[n + 2..], missing);
    assert ReadReply(part + missing) == ParseBytes(AT_HEADERS, part[n + 2..] + missing);
  }

  lemma OwnReplyLeavesNothing(x: Exchange)
    requires ValidExchange(x)
    ensures ReadReply(BytesOf(x)).rest == ""
  {
    ReplyIsClean(x.request, x.services);
    ReadRenderedReply(ReplyOf(x), x.items, "");
    assert BytesOf(x) + "" == BytesOf(x);
  }

  /** An answer that is cut short is not taken for one. */
  lemma PartialReply(x: Exchange, part: bytes, missing: bytes)
    requires ValidExchange(x) && BytesOf(x) == part + missing && missing != ""
    ensures Replies(part) == []
  {
    OwnReplyLeavesNothing(x);
    if ReadReply(part).outcome.Finished? {
      ReadReplyExtends(part, missing);
    }
  }

  /** The answers that have left completely. */
  function Delivered(w: World): seq<Received> {
    var answers := Answers(w.exchanges);
    if Whole(Outputs(w.exchanges), w.sent) || answers == [] then answers else answers[..|answers| - 1]
  }

  lemma NoReplies()
    ensures Replies("") == []
  {
    assert FindCrlf("") == None;
  }

  lemma CutAnswer(xs: seq<Exchange>, sent: nat)
    requires xs != [] && ValidExchange(xs[|xs| - 1])
    requires Within(Outputs(xs), sent) && !Whole(Outputs(xs), sent)
    ensures var outs := Outputs(xs); Replies(outs[|outs| - 1][..sent]) == []
  {
    OutputAt(xs, |xs| - 1);
    var out := BytesOf(xs[|xs| - 1]);
    SplitAt(out, sent);
    PartialReply(xs[|xs| - 1], out[..sent], out[sent..]);
  }

  lemma SplitAt(out: bytes, sent: nat)
    requires sent <= |out|
    ensures out == out[..sent] + out[sent..]
  {}

  lemma LeavingReadBack(xs: seq<Exchange>, sent: nat)
    requires (forall i :: 0 <= i < |xs| ==> ValidExchange(xs[i])) && Within(Outputs(xs), sent)
    ensures var answers := Answers(xs);
            Replies(Leaving(Outputs(xs), sent))
            == if Whole(Outputs(xs), sent) then answers else answers[..|answers| - 1]
  {
    AllReadBack(xs);
    NoReplies();
    if !Whole(Outputs(xs), sent) {
      CutAnswer(xs, sent);
    }
    ReadLeaving(Replies, Outputs(xs), Answers(xs), sent);
  }

  /** End to end, in every state of every run: what has been written reads back as one answer, with
      its status, headers and body, for each of the first requests in what has been received, in
      order, up to the last one that has left completely. None is missing when a write has just
      succeeded or a read is pending. */
  lemma EndToEnd(es: seq<Event>, w: World)
    requires Path(START, es, w)
    ensures Replies(w.wire) == Delivered(w)
    ensures Delivered(w) <= Answers(w.exchanges) && |w.exchanges| <= |Delivered(w)| + 1
    ensures w.s.write.WriteOk? || !w.s.read.NoRead? ==> Replies(w.wire) == Answers(w.exchanges)
    ensures |w.exchanges| <= |w.handled| && w.handled <= Frames(w.received)
    ensures forall i :: 0 <= i < |w.exchanges| ==> w.exchanges[i].request == w.handled[i]
  {
    WireReachable(es, w);
    HandledAreFirstFrames(es, w);
    LeavingReadBack(w.exchanges, w.sent);
  }

  /** In a run of successful writes, whenever no write is pending, whether the session is open, closed
      or ended by an exception: every request answered has its answer read back by the client. */
  lemma EndToEndOnSuccess(es: seq<Event>, w: World)
    requires Path(START, es, w) && WritesSucceed(START, es) && w.s.write.NoWrite?
    ensures Replies(w.wire) == Answers(w.exchanges)
    ensures |w.exchanges| <= |w.handled| <= |w.exchanges| + 1 && (!w.s.crashed ==> |w.exchanges| == |w.handled|)
    ensures w.handled <= Frames(w.received)
    ensures forall i :: 0 <= i < |w.exchanges| ==> w.exchanges[i].request == w.handled[i]
  {
    EndToEnd(es, w);
    EveryAnswerLeaves(es, w);
    WireIsAnswersInOrder(es, w);
  }
}
