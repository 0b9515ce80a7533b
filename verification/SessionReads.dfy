/** How many requests a session has handled, in terms of its reads alone: each read serves at most one. */
module SessionReads {
  import opened Bytes
  import opened Grammar
  import opened SessionModel
  import opened SessionRuns

  ghost function ReadBy(w: World, e: Event): seq<bytes> {
    if e.ReadHandler? && w.s.read.ReadOk? then [w.s.read.data] else []
  }

  /** What the successful reads of a run have brought, read by read. */
  ghost function Reads(w: World, es: seq<Event>): seq<bytes>
    decreases |es|
  {
    if es == [] || !Enabled(w, es[0]) then [] else ReadBy(w, es[0]) + Reads(Next(w, es[0]), es[1..])
  }

  /** How many complete requests the reads have brought. */
  function Complete(chunks: seq<bytes>): nat {
    |Frames(Concat(chunks))|
  }

  /** How many they had brought after each read, and before the first. */
  function Counts(chunks: seq<bytes>): (counts: seq<nat>)
    ensures |counts| == |chunks| + 1 && forall j :: 0 <= j <= |chunks| ==> counts[j] == Complete(chunks[..j])
  {
    seq(|chunks| + 1, j requires 0 <= j <= |chunks| => Complete(chunks[..j]))
  }

  /** One request more with each read, if there is one. */
  function ServedOf(counts: seq<nat>): nat
    requires counts != []
  {
    var last := |counts| - 1;
    if last == 0 then counts[0]
    else
      var before := ServedOf(counts[..last]);
      if before < counts[last] then before + 1 else counts[last]
  }

  function Served(chunks: seq<bytes>): nat {
    ServedOf(Counts(chunks))
  }

  lemma CountsSnoc(chunks: seq<bytes>, data: bytes)
    ensures Counts(chunks + [data]) == Counts(chunks) + [Complete(chunks + [data])]
  {
    var more := chunks + [data];
    assert more[..|more|] == more;
    assert forall j :: 0 <= j <= |chunks| ==> more[..j] == chunks[..j];
  }

  lemma ServedSnoc(chunks: seq<bytes>, data: bytes)
    ensures var more := chunks + [data];
            Served(more) == (if Served(chunks) < Complete(more) then Served(chunks) + 1 else Complete(more))
            && Concat(more) == Concat(chunks) + data
  {
    CountsSnoc(chunks, data);
    assert (Counts(chunks) + [Complete(chunks + [data])])[..|chunks| + 1] == Counts(chunks);
    ConcatSnoc(chunks, data);
  }

  /** The handler of a read takes the next complete request if there is one. */
  lemma ReadTakesOne(w: World, svc: Services, items: seq<Field>)
    requires w.s.read.ReadOk? && Framing(w)
    ensures var w1, all := NextRead(w, svc, items), |Frames(w.received + w.s.read.data)|;
            && w1.received == w.received + w.s.read.data
            && |w1.handled| == if |w.handled| < all then |w.handled| + 1 else all
  {
    var data := w.s.read.data;
    InStepParse(w.s, w.tail, data);
    FramedExtends(w.received, w.handled, w.tail, data);
    FramedFrames(w.received + data, w.handled, w.tail + data);
    assert Frames(w.tail + data) != [] <==> ParsedOnRead(w.s).outcome.Finished?;
  }

  lemma ElsewhereNothingIsRead(w: World, e: Event)
    requires Enabled(w, e) && !(e.ReadHandler? && w.s.read.ReadOk?)
    ensures Next(w, e).received == w.received && Next(w, e).handled == w.handled
  {}

  lemma ServedStep(w: World, e: Event, before: seq<bytes>)
    requires Enabled(w, e) && Framing(w)
    requires w.received == Concat(before) && |w.handled| == Served(before)
    ensures Next(w, e).received == Concat(before + ReadBy(w, e))
    ensures |Next(w, e).handled| == Served(before + ReadBy(w, e))
  {
    if e.ReadHandler? && w.s.read.ReadOk? {
      ReadTakesOne(w, e.svc, e.items);
      ServedSnoc(before, w.s.read.data);
    } else {
      ElsewhereNothingIsRead(w, e);
      assert before + [] == before;
    }
  }

  lemma ReadsStep(w: World, es: seq<Event>, before: seq<bytes>)
    requires es != [] && Enabled(w, es[0])
    ensures before + Reads(w, es) == before + ReadBy(w, es[0]) + Reads(Next(w, es[0]), es[1..])
  {}

  lemma {:induction false} ServedAlong(w: World, es: seq<Event>, end: World, before: seq<bytes>)
    requires Path(w, es, end) && Inv(w)
    requires w.received == Concat(before) && |w.handled| == Served(before)
    ensures end.received == Concat(before + Reads(w, es)) && |end.handled| == Served(before + Reads(w, es))
    decreases |es|
  {
    if es == [] {
      assert before + [] == before;
    } else {
      InvKept(w, es[0]);
      ServedStep(w, es[0], before);
      ReadsStep(w, es, before);
      ServedAlong(Next(w, es[0]), es[1..], end, before + ReadBy(w, es[0]));
    }
  }

  lemma ServedFromStart(es: seq<Event>, w: World)
    requires Path(START, es, w)
    ensures w.received == Concat(Reads(START, es)) && |w.handled| == Served(Reads(START, es))
  {
    InvAtStart();
    NothingComplete();
    ServedAlong(START, es, w, []);
    assert [] + Reads(START, es) == Reads(START, es);
  }

  lemma NothingComplete()
    ensures Complete([]) == 0 && Served([]) == 0
  {
    assert FindCrlf("") == None;
  }

  /** In every state of every run the reads alone decide which requests have been handled. */
  lemma HandledFollowsReads(es: seq<Event>, w: World)
    requires Path(START, es, w)
    ensures var chunks := Reads(START, es);
            && w.received == Concat(chunks) && Served(chunks) <= |Frames(w.received)|
            && w.handled == Frames(w.received)[..Served(chunks)]
  {
    ServedFromStart(es, w);
    HandledAreFirstFrames(es, w);
    PrefixIsTake(w.handled, Frames(w.received));
  }

  lemma PrefixIsTake<T>(a: seq<T>, b: seq<T>)
    requires a <= b
    ensures |a| <= |b| && a == b[..|a|] && (a == b <==> |b| <= |a|)
  {}

  /** No final stretch of the reads completes more requests than it has reads. */
  predicate KeepsUp(chunks: seq<bytes>) {
    forall j :: 0 <= j <= |chunks| ==> Complete(chunks) - Complete(chunks[..j]) <= |chunks| - j
  }

  /** As many requests have been served as the worst final stretch allows. */
  lemma {:induction false} ServedExactly(counts: seq<nat>, n: int)
    requires counts != []
    ensures n <= ServedOf(counts) <==> forall j :: 0 <= j < |counts| ==> n <= counts[j] + (|counts| - 1 - j)
    decreases |counts|
  {
    var last := |counts| - 1;
    if last > 0 {
      var init := counts[..last];
      ServedExactly(init, n - 1);
      assert forall j :: 0 <= j < last ==> init[j] == counts[j];
      if forall j :: 0 <= j < |counts| ==> n <= counts[j] + (|counts| - 1 - j) {
        assert n <= counts[last] + (|counts| - 1 - last);
      }
    }
  }

  lemma KeepsUpIsServed(chunks: seq<bytes>)
    ensures KeepsUp(chunks) <==> Complete(chunks) <= Served(chunks)
  {
    var n, counts := Complete(chunks), Counts(chunks);
    ServedExactly(counts, n);
    if KeepsUp(chunks) {
      forall j | 0 <= j < |counts| ensures n <= counts[j] + (|counts| - 1 - j) {
        assert n - Complete(chunks[..j]) <= |chunks| - j;
      }
    } else {
      var j :| 0 <= j <= |chunks| && n - Complete(chunks[..j]) > |chunks| - j;
      assert n > counts[j] + (|counts| - 1 - j);
    }
  }

  /** In every state of every run, all complete requests received have been handled if and only if no
      final stretch of the reads completes more requests than it has reads. */
  lemma KeepsUpExactly(es: seq<Event>, w: World)
    requires Path(START, es, w)
    ensures w.handled == Frames(w.received) <==> KeepsUp(Reads(START, es))
  {
    ServedFromStart(es, w);
    HandledAreFirstFrames(es, w);
    PrefixIsTake(w.handled, Frames(w.received));
    KeepsUpIsServed(Reads(START, es));
  }
}
