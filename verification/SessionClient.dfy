/** Sessions seen from the client: one that waits for each answer before it sends the next request,
    and conversations of any length on one connection. */
module SessionClient {
  import opened Bytes
  import opened RequestParser
  import opened Grammar
  import opened SessionModel
  import opened SessionRuns
  import opened SessionWire
  import opened SessionLifetime

  // --- A list of messages as a stream ----------------------------------------------------------------

  ghost predicate AllValid(ms: seq<Message>) {
    forall i :: 0 <= i < |ms| ==> Valid(ms[i])
  }

  function PrintAll(ms: seq<Message>): bytes {
    if ms == [] then "" else Print(ms[0]) + PrintAll(ms[1..])
  }

  function Meanings(ms: seq<Message>): (rs: seq<Request>)
    ensures |rs| == |ms| && forall i :: 0 <= i < |ms| ==> rs[i] == Meaning(ms[i])
  {
    seq(|ms|, i requires 0 <= i < |ms| => Meaning(ms[i]))
  }

  lemma {:induction false} PrintAllSnoc(ms: seq<Message>, m: Message)
    ensures PrintAll(ms + [m]) == PrintAll(ms) + Print(m)
    decreases |ms|
  {
    if ms == [] {
      assert [m][1..] == [];
    } else {
      assert (ms + [m])[1..] == ms[1..] + [m];
      PrintAllSnoc(ms[1..], m);
      Regroup(Print(ms[0]), PrintAll(ms[1..]), Print(m));
    }
  }

  /** The stream is framed as the messages it was made of, with nothing left. */
  lemma {:induction false} PrintedIsFramed(ms: seq<Message>)
    requires AllValid(ms)
    ensures Framed(PrintAll(ms), Meanings(ms), "")
    decreases |ms|
  {
    if ms != [] {
      RequestRoundTrip(ms[0], PrintAll(ms[1..]));
      assert Meanings(ms)[1..] == Meanings(ms[1..]);
      PrintedIsFramed(ms[1..]);
    }
  }

  lemma {:induction false} SameTail(b: bytes, rs: seq<Request>, t1: bytes, t2: bytes)
    requires Framed(b, rs, t1) && Framed(b, rs, t2)
    ensures t1 == t2
    decreases |rs|
  {
    if rs != [] {
      SameTail(ParseBytes(FRESH, b).rest, rs[1..], t1, t2);
    }
  }

  /** A stream that is framed to its end has no further request. */
  lemma FramedToEnd(b: bytes, rs: seq<Request>, all: seq<Request>, t: bytes)
    requires Framed(b, rs, t) && Framed(b, all, "") && |all| <= |rs|
    ensures rs == all && t == ""
  {
    FramedFrames(b, rs, t);
    FramedFrames(b, all, "");
    NoFrames();
    NothingAdded(rs, Frames(t), all);
    SameTail(b, all, t, "");
  }

  lemma NoFrames()
    ensures Frames("") == []
  {
    assert ParseBytes(FRESH, "") == Parsed(FRESH, "", Unfinished);
  }

  lemma NothingAdded<T>(a: seq<T>, more: seq<T>, all: seq<T>)
    requires a + more == all + [] && |all| <= |a|
    ensures a == all
  {
    assert |more| == 0;
    assert a + more == a && all + [] == all;
  }

  // --- A client that waits ---------------------------------------------------------------------------

  /** These bytes are a beginning of the stream of at most `k` requests. */
  ghost predicate BeginsAtMost(sent: bytes, k: nat) {
    exists ms: seq<Message> :: AllValid(ms) && |ms| <= k && sent <= PrintAll(ms)
  }

  /** What has arrived is a beginning of at most one request more than there are answers in what the
      session has written. */
  ghost predicate Polite(w: World, e: Event) {
    e.ReadArrives? ==> BeginsAtMost(w.received + e.data, |Replies(w.wire)| + 1)
  }

  /** A run whose client waits for the answers to all its requests before it sends the next. */
  ghost predicate WaitingPath(w: World, es: seq<Event>, end: World) {
    PathWhere(Polite, w, es, end)
  }

  /** While a read is pending, every answer is with the client. */
  lemma AnsweredWhileReading(w: World)
    requires Inv(w) && Wire(w) && !w.s.read.NoRead?
    ensures Replies(w.wire) == Answers(w.exchanges) && |Replies(w.wire)| <= |w.handled|
  {
    LeavingReadBack(w.exchanges, w.sent);
  }

  /** A read that has arrived and waits for its handler. */
  ghost predicate OneAhead(w: World) {
    w.s.read.ReadOk? ==> BeginsAtMost(w.received + w.s.read.data, |w.handled| + 1)
  }

  lemma BeginsMore(sent: bytes, k: nat, n: nat)
    requires BeginsAtMost(sent, k) && k <= n
    ensures BeginsAtMost(sent, n)
  {
    var ms: seq<Message> :| AllValid(ms) && |ms| <= k && sent <= PrintAll(ms);
  }

  lemma OneAheadKept(w: World, e: Event)
    requires Enabled(w, e) && Inv(w) && Wire(w) && OneAhead(w) && Polite(w, e)
    ensures OneAhead(Next(w, e))
  {
    if e.ReadArrives? {
      ReadIsAhead(w, e.data);
    } else {
      ReadStaysQueued(w, e);
    }
  }

  lemma ReadIsAhead(w: World, data: bytes)
    requires Enabled(w, ReadArrives(data)) && Inv(w) && Wire(w) && Polite(w, ReadArrives(data))
    ensures OneAhead(Next(w, ReadArrives(data)))
  {
    AnsweredWhileReading(w);
    BeginsMore(w.received + data, |Replies(w.wire)| + 1, |w.handled| + 1);
  }

  lemma ReadStaysQueued(w: World, e: Event)
    requires Enabled(w, e) && !e.ReadArrives? && Shape(w.s)
    ensures var w1 := Next(w, e);
            w1.s.read.ReadOk? ==> w1.s.read == w.s.read && w1.received == w.received && w1.handled == w.handled
  {}

  lemma NextIsFramed(w: World)
    requires w.s.read.ReadOk? && Framing(w) && ParsedOnRead(w.s).outcome.Finished?
    ensures var p := ParsedOnRead(w.s); Framed(w.received + w.s.read.data, w.handled + [p.request], p.rest)
  {
    var data := w.s.read.data;
    InStepParse(w.s, w.tail, data);
    FramedExtends(w.received, w.handled, w.tail, data);
    FramedSnoc(w.received + data, w.handled, w.tail + data);
  }

  /** Nothing follows the last request in a beginning of the stream. */
  lemma NothingAfterLast(sent: bytes, rs: seq<Request>, tail: bytes, ms: seq<Message>)
    requires Framed(sent, rs, tail) && AllValid(ms) && |ms| <= |rs| && sent <= PrintAll(ms)
    ensures tail == ""
  {
    var missing := PrintAll(ms)[|sent|..];
    assert PrintAll(ms) == sent + missing;
    FramedExtends(sent, rs, tail, missing);
    PrintedIsFramed(ms);
    FramedToEnd(PrintAll(ms), rs, Meanings(ms), tail + missing);
  }

  lemma WaitingIsPatient(w: World, e: Event)
    requires Enabled(w, e) && Framing(w) && OneAhead(w)
    ensures Patient(w, e)
  {
    if e.ReadHandler? && w.s.read.ReadOk? && ParsedOnRead(w.s).outcome.Finished? {
      var ms: seq<Message> :|
        AllValid(ms) && |ms| <= |w.handled| + 1 && w.received + w.s.read.data <= PrintAll(ms);
      NextIsFramed(w);
      var p := ParsedOnRead(w.s);
      NothingAfterLast(w.received + w.s.read.data, w.handled + [p.request], p.rest, ms);
    }
  }

  lemma {:induction false} WaitingAlong(w: World, es: seq<Event>, end: World)
    requires WaitingPath(w, es, end) && Inv(w) && Wire(w) && OneAhead(w)
    ensures PatientPath(w, es, end)
    decreases |es|
  {
    if es != [] {
      WaitingIsPatient(w, es[0]);
      OneAheadKept(w, es[0]);
      InvKept(w, es[0]);
      WireKept(w, es[0]);
      WaitingAlong(Next(w, es[0]), es[1..], end);
    }
  }

  /** With a client that sends a request only once it has all answers to the ones before, a session
      that waits for a read has handled every complete request received, and the client has exactly
      one answer for each, in order. */
  lemma WaitingClientIsAnswered(es: seq<Event>, w: World)
    requires WaitingPath(START, es, w) && !w.s.read.NoRead?
    ensures w.handled == Frames(w.received)
    ensures Replies(w.wire) == Answers(w.exchanges) && |w.exchanges| == |Frames(w.received)|
    ensures forall i :: 0 <= i < |w.exchanges| ==> w.exchanges[i].request == Frames(w.received)[i]
  {
    InvAtStart();
    WaitingAlong(START, es, w);
    PatientClientIsServed(es, w);
    PatientClientIsAnswered(es, w);
  }

  // --- Conversations of any length ---------------------------------------------------------------------

  /** A request that asks for persistence, and an answer the code can give to it. */
  ghost predicate Answerable(m: Message, x: Exchange) {
    Valid(m) && ValidExchange(x) && x.request == Meaning(m) && WantsKeepAlive(x.request)
  }

  ghost predicate Conversation(ms: seq<Message>, xs: seq<Exchange>) {
    |ms| == |xs| && forall i :: 0 <= i < |xs| ==> Answerable(ms[i], xs[i])
  }

  /** A session between two requests. */
  predicate Idle(w: World) {
    && !w.s.closed && !w.s.crashed && w.s.read.ReadInFlight? && w.s.write.NoWrite?
    && w.s.request == FRESH && w.s.readBuffer == "" && w.s.writeBuffer == "" && w.tail == ""
  }

  lemma ExtendPolitely(es: seq<Event>, w: World, e: Event) returns (es1: seq<Event>, w1: World)
    requires WaitingPath(START, es, w) && Enabled(w, e) && Polite(w, e)
    ensures w1 == Next(w, e) && WaitingPath(START, es1, w1)
  {
    PathWhereSnoc(Polite, START, es, w, e);
    es1, w1 := es + [e], Next(w, e);
  }

  /** One more request on the same connection. */
  lemma OneMore(es: seq<Event>, w: World, ms: seq<Message>, m: Message, x: Exchange)
    returns (es1: seq<Event>, w1: World)
    requires WaitingPath(START, es, w) && Idle(w)
    requires AllValid(ms) && w.received == PrintAll(ms) && |w.exchanges| == |ms|
    requires Answerable(m, x)
    ensures WaitingPath(START, es1, w1) && Idle(w1)
    ensures w1.received == PrintAll(ms + [m]) && w1.exchanges == w.exchanges + [x]
  {
    es1, w1 := NextArrives(es, w, ms, m);
    RequestHandled(w1, x, "");
    es1, w1 := ExtendPolitely(es1, w1, ReadHandler(x.services, x.items));
    es1, w1 := SendAll(es1, w1);
    PrintAllSnoc(ms, m);
  }

  lemma NextArrives(es: seq<Event>, w: World, ms: seq<Message>, m: Message) returns (es1: seq<Event>, w1: World)
    requires WaitingPath(START, es, w) && Idle(w) && AllValid(ms) && Valid(m)
    requires w.received == PrintAll(ms) && |w.exchanges| == |ms|
    ensures WaitingPath(START, es1, w1) && w1 == w.(s := w.s.(read := ReadOk(Print(m))))
    ensures ParsedOnRead(w1.s) == Parsed(Meaning(m), "", Finished)
  {
    NextIsPolite(es, w, ms, m);
    es1, w1 := ExtendPolitely(es, w, ReadArrives(Print(m)));
    RequestRoundTrip(m, "");
    assert Print(m) + "" == Print(m) == "" + Print(m);
  }

  lemma NextIsPolite(es: seq<Event>, w: World, ms: seq<Message>, m: Message)
    requires WaitingPath(START, es, w) && Idle(w) && AllValid(ms) && Valid(m)
    requires w.received == PrintAll(ms) && |w.exchanges| == |ms|
    ensures Polite(w, ReadArrives(Print(m)))
  {
    AnswersAreRead(es, w);
    BeginsWithNext(ms, m, w.received + Print(m), |Replies(w.wire)| + 1);
  }

  lemma BeginsWithNext(ms: seq<Message>, m: Message, sent: bytes, k: nat)
    requires AllValid(ms) && Valid(m) && |ms| < k && sent == PrintAll(ms) + Print(m)
    ensures BeginsAtMost(sent, k)
  {
    PrintAllSnoc(ms, m);
    AllValidSnoc(ms, m);
    Begins(ms + [m], sent, k);
  }

  lemma AllValidSnoc(ms: seq<Message>, m: Message)
    requires AllValid(ms) && Valid(m)
    ensures AllValid(ms + [m])
  {}

  lemma AnswersAreRead(es: seq<Event>, w: World)
    requires WaitingPath(START, es, w) && !w.s.read.NoRead?
    ensures Replies(w.wire) == Answers(w.exchanges) && |Replies(w.wire)| == |w.exchanges|
  {
    PathWhereIsPath(Polite, START, es, w);
    WireReachable(es, w);
    AnsweredWhileReading(w);
  }

  lemma Begins(ms: seq<Message>, sent: bytes, k: nat)
    requires AllValid(ms) && |ms| <= k && sent == PrintAll(ms)
    ensures BeginsAtMost(sent, k)
  {}

  /** The whole answer leaves, and the session reads on. */
  lemma SendAll(es: seq<Event>, w: World) returns (es1: seq<Event>, w1: World)
    requires WaitingPath(START, es, w) && !w.s.closed && !w.s.crashed && w.s.keepAlive
    requires w.s.write.WriteInFlight? && w.s.read.NoRead? && w.s.readBuffer == "" && w.tail == "" && w.sent == 0
    ensures WaitingPath(START, es1, w1) && Idle(w1)
    ensures w1.received == w.received && w1.exchanges == w.exchanges
  {
    es1, w1 := ExtendPolitely(es, w, WriteProgress(|w.s.writeBuffer|));
    es1, w1 := ExtendPolitely(es1, w1, WriteDrains);
    es1, w1 := ExtendPolitely(es1, w1, WriteHandler);
  }

  /** Any conversation can take place on one connection: for every list of requests that ask for
      persistence and every answer the code can give to each, there is a run in which a client that
      waits gets them all and the session waits for more. */
  lemma AnyConversation(ms: seq<Message>, xs: seq<Exchange>) returns (es: seq<Event>, w: World)
    requires Conversation(ms, xs)
    ensures WaitingPath(START, es, w) && Idle(w)
    ensures w.received == PrintAll(ms) && w.exchanges == xs && Replies(w.wire) == Answers(xs)
  {
    StartIsIdle();
    es, w := Talk([], START, [], ms, xs);
    NothingBefore(ms);
    NothingBefore(xs);
    AnswersAreRead(es, w);
  }

  lemma StartIsIdle()
    ensures Idle(START) && WaitingPath(START, [], START)
    ensures START.received == PrintAll([]) && START.exchanges == []
  {}

  lemma NothingBefore<T>(s: seq<T>)
    ensures [] + s == s
  {}

  lemma {:induction false} Talk(es: seq<Event>, w: World, done: seq<Message>, ms: seq<Message>, xs: seq<Exchange>)
    returns (es1: seq<Event>, w1: World)
    requires WaitingPath(START, es, w) && Idle(w)
    requires AllValid(done) && w.received == PrintAll(done) && |w.exchanges| == |done|
    requires Conversation(ms, xs)
    ensures WaitingPath(START, es1, w1) && Idle(w1)
    ensures w1.received == PrintAll(done + ms) && w1.exchanges == w.exchanges + xs
    decreases |ms|
  {
    if ms == [] {
      es1, w1 := es, w;
      assert done + ms == done && w.exchanges + xs == w.exchanges;
    } else {
      FirstFits(ms, xs);
      es1, w1 := OneMore(es, w, done, ms[0], xs[0]);
      es1, w1 := Talk(es1, w1, done + [ms[0]], ms[1..], xs[1..]);
      FirstAndRest(done, ms);
      FirstAndRest(w.exchanges, xs);
    }
  }

  lemma FirstFits(ms: seq<Message>, xs: seq<Exchange>)
    requires Conversation(ms, xs) && ms != []
    ensures Answerable(ms[0], xs[0]) && Conversation(ms[1..], xs[1..])
  {}

  lemma FirstAndRest<T>(done: seq<T>, more: seq<T>)
    requires more != []
    ensures done + [more[0]] + more[1..] == done + more
  {}

  /** A valid request with a path that asks for persistence. */
  ghost predicate Persistent(m: Message) {
    Valid(m) && m.path != "" && WantsKeepAlive(Meaning(m))
  }

  /** Each has an answer the code can give. */
  lemma AnswerExists(m: Message) returns (x: Exchange)
    requires Persistent(m)
    ensures Answerable(m, x) && x.services == QUIET
  {
    var items := QuietItems(Meaning(m));
    x := Exchange(Meaning(m), QUIET, items);
  }

  ghost predicate AllPersistent(ms: seq<Message>) {
    forall i :: 0 <= i < |ms| ==> Persistent(ms[i])
  }

  lemma PersistentParts(ms: seq<Message>, init: seq<Message>, m: Message)
    requires AllPersistent(ms) && ms == init + [m]
    ensures AllPersistent(init) && Persistent(m)
  {
    assert forall i :: 0 <= i < |init| ==> init[i] == ms[i];
    assert m == ms[|init|];
  }

  /** A conversation in which the services have little to say. */
  ghost predicate QuietConversation(ms: seq<Message>, xs: seq<Exchange>) {
    Conversation(ms, xs) && forall i :: 0 <= i < |xs| ==> xs[i].services == QUIET
  }

  lemma QuietSnoc(ms: seq<Message>, xs: seq<Exchange>, m: Message, x: Exchange)
    requires QuietConversation(ms, xs) && Answerable(m, x) && x.services == QUIET
    ensures QuietConversation(ms + [m], xs + [x])
  {
    forall i | 0 <= i < |xs| + 1 ensures Answerable((ms + [m])[i], (xs + [x])[i]) {
      assert i < |xs| ==> Answerable(ms[i], xs[i]);
    }
  }

  lemma {:induction false} AnswersExist(ms: seq<Message>) returns (xs: seq<Exchange>)
    requires AllPersistent(ms)
    ensures QuietConversation(ms, xs)
    decreases |ms|
  {
    xs := [];
    if ms != [] {
      var init, m := ms[..|ms| - 1], ms[|ms| - 1];
      assert ms == init + [m];
      PersistentParts(ms, init, m);
      var before := AnswersExist(init);
      var x := AnswerExists(m);
      QuietSnoc(init, before, m, x);
      xs := before + [x];
    }
  }

  /** Persistence has no end of its own: every list of valid requests with a path that ask for it can
      be answered on one connection. */
  lemma EveryListIsAnswered(ms: seq<Message>) returns (es: seq<Event>, w: World)
    requires AllPersistent(ms)
    ensures WaitingPath(START, es, w) && Idle(w)
    ensures w.received == PrintAll(ms) && w.handled == Meanings(ms) && |Replies(w.wire)| == |ms|
  {
    var xs := AnswersExist(ms);
    es, w := AnyConversation(ms, xs);
    PersistentIsValid(ms);
    HandledAre(es, w, ms);
  }

  lemma PersistentIsValid(ms: seq<Message>)
    requires AllPersistent(ms)
    ensures AllValid(ms)
  {
    forall i | 0 <= i < |ms| ensures Valid(ms[i]) {
      assert Persistent(ms[i]);
    }
  }

  lemma HandledAre(es: seq<Event>, w: World, ms: seq<Message>)
    requires WaitingPath(START, es, w) && Idle(w) && AllValid(ms) && w.received == PrintAll(ms)
    ensures w.handled == Meanings(ms)
  {
    WaitingClientIsAnswered(es, w);
    PrintedIsFramed(ms);
    FramedFrames(PrintAll(ms), Meanings(ms), "");
    NoFrames();
    assert Meanings(ms) + [] == Meanings(ms);
  }

  /** The limit of 100 requests that the answers announce is not kept: for every n, a run in which n
      answers on one connection announce it and the session reads on. */
  lemma AnnouncedLimitIsNotKept(n: nat) returns (es: seq<Event>, w: World)
    ensures WaitingPath(START, es, w) && Idle(w) && |Replies(w.wire)| == n
    ensures forall i :: 0 <= i < n ==> AnnouncesLimit(Replies(w.wire)[i])
  {
    PersistentGetIsValid();
    var ms := seq(n, _ => PERSISTENT_GET);
    var xs := AnswersExist(ms);
    es, w := AnyConversation(ms, xs);
    forall i | 0 <= i < n ensures AnnouncesLimit(Replies(w.wire)[i]) {
      QuietAnnounces(xs[i]);
    }
  }

  predicate AnnouncesLimit(answer: Received) {
    "Keep-Alive" in answer.headers && answer.headers["Keep-Alive"] == "timeout=5, max=100"
  }

  lemma QuietAnnounces(x: Exchange)
    requires x.services == QUIET && Respond(x.request, QUIET).Reply? && WantsKeepAlive(x.request)
    ensures AnnouncesLimit(AnswerIn(x))
  {
    var reply := ReplyOf(x);
    assert reply.keepAlive;
  }
}
