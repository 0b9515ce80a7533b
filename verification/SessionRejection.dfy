/** What input that can no longer become a request does to a session: nothing is handled or answered
    any more, and after the first read nothing but a read error or `Stop` ends it. */
module SessionRejection {
  import opened Bytes
  import opened RequestParser
  import opened SessionModel
  import opened SessionRuns
  import opened SessionLifetime
  import opened Viability

  lemma HopelessHoldsNoFrame(b: bytes)
    requires Hopeless(b)
    ensures Frames(b) == []
  {}

  /** For instance, an empty line before the request line, which section 2.2 of RFC 9112 asks a server
      to ignore. */
  lemma LeadingBlankLineIsHopeless(b: bytes)
    ensures Hopeless(CRLF + b)
  {
    assert NoCrlf("") && "" + CRLF + b == CRLF + b;
    FindCrlfAfterLine("", b);
    assert IndexOf("", ' ') == 0;
  }

  /** Or a method the server does not know, before the line has ended. */
  lemma UnknownMethodIsHopeless()
    ensures Hopeless("FOO ")
  {
    NoReturnNoCrlf("FOO ");
    assert "FOO "[..3] == "FOO";
    IndexOfIs("FOO ", ' ', 3);
  }

  lemma DeafStep(w: World, e: Event)
    requires Enabled(w, e) && Shape(w.s) && Framing(w) && Hopeless(w.tail)
    ensures var w1 := Next(w, e);
            && w1.handled == w.handled && w1.exchanges == w.exchanges
            && w1.s.crashed == w.s.crashed
            && Hopeless(w1.tail) && w.tail <= w1.tail
            && |w1.tail| - |w.tail| == |w1.received| - |w.received|
            && (!w.s.read.NoRead? ==> w1.wire == w.wire && w1.s.write.NoWrite?)
            && (w1.s.read.NoRead? && !w.s.read.NoRead? ==> w1.s.closed)
  {
    if e.ReadHandler? && w.s.read.ReadOk? {
      InStepParse(w.s, w.tail, w.s.read.data);
      HopelessStays(w.tail, w.s.read.data);
    }
  }

  /** Nothing is in flight and nothing can be written. */
  predicate Silent(s: State) {
    s.write.NoWrite? && (s.read.NoRead? ==> s.closed || s.crashed)
  }

  lemma SilentStep(w: World, e: Event)
    requires Enabled(w, e) && Shape(w.s) && Framing(w) && Hopeless(w.tail) && Silent(w.s)
    ensures Silent(Next(w, e).s) && Next(w, e).wire == w.wire
  {
    DeafStep(w, e);
  }

  /** Once what has not been handled is hopeless, the session handles and answers nothing more, in any
      continuation of any run; nor does an exception ever end it. If it is waiting for a read, not a
      byte leaves any more. */
  lemma RejectedSessionIsDeaf(es0: seq<Event>, w: World, es: seq<Event>, end: World)
    requires Path(START, es0, w) && Hopeless(w.tail) && Path(w, es, end)
    ensures end.handled == w.handled && end.exchanges == w.exchanges && end.s.crashed == w.s.crashed
    ensures Hopeless(end.tail) && Frames(end.received) == w.handled
    ensures !w.s.read.NoRead? ==> end.wire == w.wire
  {
    Reachable(es0, w);
    DeafAlong(w, es, end);
    if !w.s.read.NoRead? {
      SilentAlong(w, es, end);
    }
    FramedFrames(end.received, end.handled, end.tail);
    HopelessHoldsNoFrame(end.tail);
    assert end.handled + [] == end.handled;
  }

  lemma {:induction false} DeafAlong(w: World, es: seq<Event>, end: World)
    requires Path(w, es, end) && Inv(w) && Hopeless(w.tail)
    ensures Inv(end) && Hopeless(end.tail) && w.tail <= end.tail
    ensures end.handled == w.handled && end.exchanges == w.exchanges && end.s.crashed == w.s.crashed
    ensures |end.tail| - |w.tail| == |end.received| - |w.received|
    decreases |es|
  {
    if es != [] {
      DeafStep(w, es[0]);
      InvKept(w, es[0]);
      DeafAlong(Next(w, es[0]), es[1..], end);
    }
  }

  lemma {:induction false} SilentAlong(w: World, es: seq<Event>, end: World)
    requires Path(w, es, end) && Inv(w) && Hopeless(w.tail) && Silent(w.s)
    ensures end.wire == w.wire
    decreases |es|
  {
    if es != [] {
      DeafStep(w, es[0]);
      SilentStep(w, es[0]);
      InvKept(w, es[0]);
      SilentAlong(Next(w, es[0]), es[1..], end);
    }
  }

  // --- And it stays ------------------------------------------------------------------------------

  /** Open, waiting for a read or with one that has succeeded, and no timer left. */
  predicate Hanging(s: State) {
    && !s.closed && !s.crashed && (s.read.ReadInFlight? || s.read.ReadOk?)
    && !s.timer.Waiting? && !s.timer.Expired?
  }

  lemma HangingStep(w: World, e: Event)
    requires Enabled(w, e) && Shape(w.s) && Framing(w) && Hopeless(w.tail) && Hanging(w.s)
    requires !e.ReadFails? && !e.StopCall?
    ensures Hanging(Next(w, e).s)
  {
    DeafStep(w, e);
  }

  lemma {:induction false} HangingAlong(w: World, es: seq<Event>, end: World)
    requires Path(w, es, end) && Inv(w) && Hopeless(w.tail) && Hanging(w.s)
    requires forall e :: e in es ==> !e.ReadFails? && !e.StopCall?
    ensures Hanging(end.s)
    decreases |es|
  {
    if es != [] {
      DeafStep(w, es[0]);
      HangingStep(w, es[0]);
      InvKept(w, es[0]);
      HangingAlong(Next(w, es[0]), es[1..], end);
    }
  }

  /** No timeout frees it: an open session that has met hopeless input and waits for a read, with no
      expiry already queued, stays open until a read fails or `Stop` is called, and every byte that
      arrives stays in its read buffer. */
  lemma RejectedSessionHangs(es0: seq<Event>, w: World, es: seq<Event>, end: World)
    requires Path(START, es0, w) && Hopeless(w.tail) && Path(w, es, end)
    requires !w.s.closed && w.s.read.ReadInFlight? && !w.s.timer.Expired?
    requires forall e :: e in es ==> !e.ReadFails? && !e.StopCall?
    ensures !end.s.closed && !end.s.crashed && (end.s.read.ReadInFlight? || end.s.read.ReadOk?)
    ensures |end.s.readBuffer| >= |end.received| - |w.received|
  {
    Reachable(es0, w);
    TailNeedsRead(START, es0, w);
    NothingYetIsHopeful();
    HangingAlong(w, es, end);
    DeafAlong(w, es, end);
    BufferKeeps(w.tail, end);
  }

  lemma BufferKeeps(before: bytes, w: World)
    requires Hopeless(before) && before <= w.tail && InStep(w.s, w.tail)
    ensures |w.s.readBuffer| >= |w.tail| - |before|
  {
    var c := w.tail[|before|..];
    assert w.tail == before + c;
    HopelessStays(before, c);
  }

  lemma NothingYetIsHopeful()
    ensures !Hopeless("")
  {
    assert ParseBytes(FRESH, "") == Parsed(FRESH, "", Unfinished);
    assert IndexOf("", ' ') == 0 && "" <= Token(GET);
  }

  lemma {:induction false} TailNeedsRead(w: World, es: seq<Event>, end: World)
    requires Path(w, es, end) && (w.readCount == 0 ==> w.tail == "")
    ensures end.readCount == 0 ==> end.tail == ""
    decreases |es|
  {
    if es != [] {
      TailNeedsRead(Next(w, es[0]), es[1..], end);
    }
  }

  // --- When another request can be handled -----------------------------------------------------------

  ghost predicate HandlesMore(w: World, es: seq<Event>, end: World) {
    Path(w, es, end) && |w.handled| < |end.handled|
  }

  lemma {:induction false} ReceivedGrows(w: World, es: seq<Event>, end: World)
    requires Path(w, es, end)
    ensures w.received <= end.received
    decreases |es|
  {
    if es != [] {
      ReceivedGrows(Next(w, es[0]), es[1..], end);
    }
  }

  /** Where one framing of a stream goes on beyond another, a request can be read. */
  lemma {:induction false} FramedFurther(b: bytes, rs: seq<Request>, tail: bytes, more: seq<Request>, end: bytes)
    requires Framed(b, rs, tail) && Framed(b, more, end) && |rs| < |more|
    ensures ParseBytes(FRESH, tail).outcome.Finished?
    decreases |rs|
  {
    if rs != [] {
      FramedFurther(ParseBytes(FRESH, b).rest, rs[1..], tail, more[1..], end);
    }
  }

  lemma HandlingNeedsFinish(w: World, end: World)
    requires Framing(w) && Framing(end) && w.received <= end.received && |w.handled| < |end.handled|
    ensures CanFinish(FRESH, w.tail)
  {
    var c := end.received[|w.received|..];
    assert end.received == w.received + c;
    FramedExtends(w.received, w.handled, w.tail, c);
    FramedFurther(end.received, w.handled, w.tail + c, end.handled, end.tail);
  }

  /** The missing bytes arrive in one read and the handler takes the request. */
  lemma FinishIsHandled(w: World, c: bytes) returns (es: seq<Event>, end: World)
    requires Inv(w) && w.s.read.ReadInFlight? && ParseBytes(FRESH, w.tail + c).outcome.Finished?
    ensures HandlesMore(w, es, end)
  {
    var w1 := Next(w, ReadArrives(c));
    InStepParse(w.s, w.tail, c);
    var r := ParsedOnRead(w1.s).request;
    var items := QuietItems(r);
    assert Path(w, [], w);
    PathSnoc(w, [], w, ReadArrives(c));
    PathSnoc(w, [] + [ReadArrives(c)], w1, ReadHandler(QUIET, items));
    es := [] + [ReadArrives(c)] + [ReadHandler(QUIET, items)];
    end := Next(w1, ReadHandler(QUIET, items));
    assert end.handled == w.handled + [r];
  }

  /** A session waiting for a read can handle a further request in some continuation if and only if
      some continuation of the bytes after the last one handled finishes a request. */
  lemma FurtherRequestExactly(es0: seq<Event>, w: World)
    requires Path(START, es0, w) && w.s.read.ReadInFlight?
    ensures (exists es, end :: HandlesMore(w, es, end)) <==> CanFinish(FRESH, w.tail)
  {
    Reachable(es0, w);
    if es, end :| HandlesMore(w, es, end) {
      InvAlong(w, es, end);
      ReceivedGrows(w, es, end);
      HandlingNeedsFinish(w, end);
    }
    if CanFinish(FRESH, w.tail) {
      var c: bytes :| ParseBytes(FRESH, w.tail + c).outcome.Finished?;
      var es, end := FinishIsHandled(w, c);
    }
  }
}
